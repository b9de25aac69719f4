/** Re-cutting of lazy code pages at authoritative instruction roots. */
module RootNormalization {
  import opened Machine
  import opened AddressSpan

  /** A listing row: a code page descriptor, or any other row, which is carried through unread. */
  datatype Row =
    | CodePage(addr: u64, section: u32, aux: u64, region: u32)
    | Other(payload: nat)

  /** A maximal stretch of code bytes, an isolated empty descriptor, or another row. */
  datatype Segment =
    | Bytes(addr: u64, section: u32, size: nat)
    | Empty(addr: u64, section: u32)
    | Kept(payload: nat)

  /** The second page continues the byte run of the first. */
  predicate Joins(before: Row, after: Row) {
    && before.CodePage? && before.aux != 0
    && after.CodePage? && after.aux != 0
    && after.region == before.region && after.section == before.section
    && CheckedAddressAdd(before.addr, before.aux) == Some(after.addr)
  }

  /** Every byte a page describes has an address. */
  ghost predicate Listing(rows: seq<Row>) {
    forall k :: 0 <= k < |rows| && rows[k].CodePage? ==> rows[k].addr + rows[k].aux <= U64_LIMIT
  }

  // ---------------------------------------------------------------------------
  // Runs.

  function SegmentOf(row: Row): Segment {
    match row
    case Other(payload) => Kept(payload)
    case CodePage(addr, section, aux, _) => if aux == 0 then Empty(addr, section) else Bytes(addr, section, aux)
  }

  /** The byte runs of a listing, with neighbouring pages of one run fused. */
  ghost function Parse(rows: seq<Row>): (segments: seq<Segment>)
    requires Listing(rows)
    ensures rows != [] ==> segments != []
    ensures rows != [] && SegmentOf(rows[0]).Bytes? ==>
      segments[0].Bytes? && segments[0].addr == rows[0].addr && segments[0].section == rows[0].section &&
      rows[0].aux <= segments[0].size && segments[0].addr + segments[0].size <= U64_LIMIT
    ensures rows != [] && !SegmentOf(rows[0]).Bytes? ==> segments[0] == SegmentOf(rows[0])
  {
    if rows == [] then []
    else
      assert forall k :: 0 <= k < |rows[1..]| ==> rows[1..][k] == rows[k + 1];
      var rest := Parse(rows[1..]);
      if |rows| > 1 && Joins(rows[0], rows[1]) then
        [Bytes(rows[0].addr, rows[0].section, rows[0].aux + rest[0].size)] + rest[1..]
      else [SegmentOf(rows[0])] + rest
  }

  // ---------------------------------------------------------------------------
  // Cutting at roots.

  ghost predicate Ascending(roots: seq<u64>) {
    forall i, j :: 0 <= i < j < |roots| ==> roots[i] < roots[j]
  }

  /** Offsets of the roots strictly inside a run. */
  ghost function Inside(addr: u64, size: nat, roots: seq<u64>): (offsets: seq<u64>) {
    if roots == [] then []
    else (if addr < roots[0] < addr + size then [roots[0] - addr] else []) + Inside(addr, size, roots[1..])
  }

  /** Strictly ascending offsets in `(from, size)`. */
  ghost predicate Offsets(offsets: seq<u64>, from: nat, size: nat) {
    offsets == [] || (from < offsets[0] < size && Offsets(offsets[1..], offsets[0], size))
  }

  /** The run cut at the given offsets, from offset `from` on. */
  ghost function Subruns(addr: u64, section: u32, size: nat, from: nat, offsets: seq<u64>): seq<Segment>
    requires from < size && addr + size <= U64_LIMIT && Offsets(offsets, from, size)
    decreases |offsets|
  {
    if offsets == [] then [Bytes(addr + from, section, size - from)]
    else [Bytes(addr + from, section, offsets[0] - from)] + Subruns(addr, section, size, offsets[0], offsets[1..])
  }

  ghost predicate ValidSegment(s: Segment) {
    s.Bytes? ==> 0 < s.size && s.addr + s.size <= U64_LIMIT
  }

  ghost function SplitSegment(s: Segment, roots: seq<u64>): seq<Segment>
    requires ValidSegment(s) && Ascending(roots)
  {
    if s.Bytes? then
      InsideOffsets(s.addr, s.size, roots, 0);
      Subruns(s.addr, s.section, s.size, 0, Inside(s.addr, s.size, roots))
    else [s]
  }

  /** No run covers the whole address space, so the length of every run is a machine word. */
  ghost predicate Short(segments: seq<Segment>) {
    forall k :: 0 <= k < |segments| && segments[k].Bytes? ==> segments[k].size <= U64_MAX
  }

  ghost predicate ValidSegments(segments: seq<Segment>) {
    forall k :: 0 <= k < |segments| ==> ValidSegment(segments[k])
  }

  ghost function Split(segments: seq<Segment>, roots: seq<u64>): seq<Segment>
    requires ValidSegments(segments) && Ascending(roots)
  {
    if segments == [] then [] else SplitSegment(segments[0], roots) + Split(segments[1..], roots)
  }

  lemma {:induction false} InsideOffsets(addr: u64, size: nat, roots: seq<u64>, from: nat)
    requires Ascending(roots)
    requires from == 0 || forall k :: 0 <= k < |roots| ==> addr + from < roots[k]
    ensures Offsets(Inside(addr, size, roots), from, size)
  {
    if roots != [] {
      assert forall k :: 0 <= k < |roots[1..]| ==> roots[1..][k] == roots[k + 1];
      if addr < roots[0] < addr + size {
        InsideOffsets(addr, size, roots[1..], roots[0] - addr);
        assert Inside(addr, size, roots)[1..] == Inside(addr, size, roots[1..]);
      } else {
        InsideOffsets(addr, size, roots[1..], from);
        assert Inside(addr, size, roots) == Inside(addr, size, roots[1..]);
      }
    }
  }

  // ---------------------------------------------------------------------------
  // Rendering.

  /** The pages of one run: full 4 KiB pages from its own start, then the remainder. */
  function Pages(addr: u64, section: u32, size: nat, region: u32): (pages: seq<Row>)
    requires addr + size <= U64_LIMIT
    ensures size == 0 <==> pages == []
    decreases size
  {
    if size == 0 then []
    else
      var n := Min(CODE_PAGE_BYTES, size);
      [CodePage(addr, section, n, region)] + (if n == size then [] else Pages(addr + n, section, size - n, region))
  }

  lemma PagesStep(addr: u64, section: u32, size: nat, region: u32)
    requires 0 < size && addr + size <= U64_LIMIT
    ensures size <= CODE_PAGE_BYTES ==> Pages(addr, section, size, region) == [CodePage(addr, section, size, region)]
    ensures size > CODE_PAGE_BYTES ==>
      Pages(addr, section, size, region) ==
      [CodePage(addr, section, CODE_PAGE_BYTES, region)] + Pages(addr + CODE_PAGE_BYTES, section, size - CODE_PAGE_BYTES, region)
  {
  }

  function RenderSegment(s: Segment, region: u32): seq<Row>
    requires ValidSegment(s)
  {
    match s
    case Kept(payload) => [Other(payload)]
    case Empty(addr, section) => [CodePage(addr, section, 0, region)]
    case Bytes(addr, section, size) => Pages(addr, section, size, region)
  }

  /** The number of the `k`-th run: zero is reserved, so the counter wraps from its largest value to one. */
  function Number(k: nat): (region: u32)
    ensures 0 < region
    ensures k < U32_MAX ==> region == k + 1
  {
    k % U32_MAX + 1
  }

  lemma NumberWraps(k: nat)
    ensures Number(k + U32_MAX) == Number(k)
  {
    var turns, rest := k / U32_MAX, k % U32_MAX;
    assert k + U32_MAX == (turns + 1) * U32_MAX + rest;
  }

  lemma NextNumber(k: nat)
    ensures Number(k + 1) == (if Number(k) == U32_MAX then 1 else Number(k) + 1) != Number(k)
  {
    var turns, rest := k / U32_MAX, k % U32_MAX;
    if rest + 1 == U32_MAX {
      assert k + 1 == (turns + 1) * U32_MAX;
    } else {
      assert k + 1 == turns * U32_MAX + (rest + 1);
    }
  }

  /** Numbers the segments of a listing use up. */
  ghost function Regions(segments: seq<Segment>): nat {
    if segments == [] then 0 else (if segments[0].Kept? then 0 else 1) + Regions(segments[1..])
  }

  /** Rows for the segments; the first code segment is the `run`-th. */
  ghost function Render(segments: seq<Segment>, run: nat): seq<Row>
    requires ValidSegments(segments)
    decreases |segments|
  {
    if segments == [] then []
    else RenderSegment(segments[0], Number(run)) + Render(segments[1..], if segments[0].Kept? then run else run + 1)
  }

  /** What normalisation computes. */
  ghost function Normalized(rows: seq<Row>, roots: seq<u64>): seq<Row>
    requires Listing(rows) && Ascending(roots)
  {
    ParseValid(rows);
    SplitValid(Parse(rows), roots);
    Render(Split(Parse(rows), roots), 0)
  }

  lemma {:induction false} ParseValid(rows: seq<Row>)
    requires Listing(rows)
    ensures ValidSegments(Parse(rows))
  {
    if rows != [] {
      assert forall k :: 0 <= k < |rows[1..]| ==> rows[1..][k] == rows[k + 1];
      ParseValid(rows[1..]);
    }
  }

  lemma {:induction false} SubrunsValid(addr: u64, section: u32, size: nat, from: nat, offsets: seq<u64>)
    requires from < size && addr + size <= U64_LIMIT && Offsets(offsets, from, size)
    ensures ValidSegments(Subruns(addr, section, size, from, offsets))
    decreases |offsets|
  {
    if offsets != [] {
      SubrunsValid(addr, section, size, offsets[0], offsets[1..]);
    }
  }

  lemma {:induction false} SplitValid(segments: seq<Segment>, roots: seq<u64>)
    requires ValidSegments(segments) && Ascending(roots)
    ensures ValidSegments(Split(segments, roots))
  {
    if segments != [] {
      var s := segments[0];
      if s.Bytes? {
        InsideOffsets(s.addr, s.size, roots, 0);
        SubrunsValid(s.addr, s.section, s.size, 0, Inside(s.addr, s.size, roots));
      }
      assert forall k :: 0 <= k < |segments[1..]| ==> segments[1..][k] == segments[k + 1];
      SplitValid(segments[1..], roots);
    }
  }

  // ---------------------------------------------------------------------------
  // Reading the rendered rows back.

  /** Nothing that follows can be fused with pages of this identity. */
  ghost predicate Foreign(rows: seq<Row>, region: u32) {
    rows != [] && rows[0].CodePage? && rows[0].aux != 0 ==> rows[0].region != region
  }

  ghost predicate Describes(rows: seq<Row>, segments: seq<Segment>) {
    Listing(rows) && Parse(rows) == segments
  }

  lemma ListingCons(row: Row, rows: seq<Row>)
    requires Listing(rows)
    requires row.CodePage? ==> row.addr + row.aux <= U64_LIMIT
    ensures Listing([row] + rows)
    ensures Parse([row] + rows) ==
            if rows != [] && Joins(row, rows[0]) then [Bytes(row.addr, row.section, row.aux + Parse(rows)[0].size)] + Parse(rows)[1..]
            else [SegmentOf(row)] + Parse(rows)
  {
    assert ([row] + rows)[1..] == rows;
  }

  lemma SegmentOfPage(page: Row)
    requires page.CodePage? && page.aux != 0
    ensures SegmentOf(page) == Bytes(page.addr, page.section, page.aux)
  {
  }

  /** The pages of one run read back as that run. */
  lemma {:induction false} ParsePages(addr: u64, section: u32, size: nat, region: u32, rest: seq<Row>)
    requires 0 < size && addr + size <= U64_LIMIT
    requires Listing(rest) && Foreign(rest, region)
    ensures Describes(Pages(addr, section, size, region) + rest, [Bytes(addr, section, size)] + Parse(rest))
    decreases size
  {
    hide Parse, Listing, SegmentOf, Pages;
    PagesStep(addr, section, size, region);
    var n := Min(CODE_PAGE_BYTES, size);
    var page := CodePage(addr, section, n, region);
    if n == size {
      ListingCons(page, rest);
      SegmentOfPage(page);
      assert Pages(addr, section, size, region) + rest == [page] + rest;
    } else {
      var more := Pages(addr + n, section, size - n, region);
      ParsePages(addr + n, section, size - n, region, rest);
      ListingCons(page, more + rest);
      Associate([page], more, rest);
      PagesStep(addr + n, section, size - n, region);
      assert (more + rest)[0] == more[0];
    }
  }

  lemma RenderForeign(segments: seq<Segment>, run: nat)
    requires ValidSegments(segments)
    ensures Foreign(Render(segments, run + 1), Number(run))
  {
    NextNumber(run);
    if segments != [] {
      assert Render(segments, run + 1)[0] == RenderSegment(segments[0], Number(run + 1))[0];
    }
  }

  /** Parsing inverts rendering: neighbouring runs never share a number. */
  lemma {:induction false} ParseRender(segments: seq<Segment>, run: nat)
    requires ValidSegments(segments)
    ensures Describes(Render(segments, run), segments)
    decreases |segments|
  {
    hide Number;
    if segments != [] {
      var s := segments[0];
      var next := if s.Kept? then run else run + 1;
      assert forall k :: 0 <= k < |segments[1..]| ==> segments[1..][k] == segments[k + 1];
      var rest := Render(segments[1..], next);
      ParseRender(segments[1..], next);
      match s
      case Bytes(addr, section, size) =>
        RenderForeign(segments[1..], run);
        ParsePages(addr, section, size, Number(run), rest);
      case Empty(addr, section) =>
        ListingCons(CodePage(addr, section, 0, Number(run)), rest);
      case Kept(payload) =>
        ListingCons(Other(payload), rest);
    }
  }

  // ---------------------------------------------------------------------------
  // Idempotence.

  /** A cut run has no root left strictly inside it. */
  ghost predicate Uncut(s: Segment, roots: seq<u64>) {
    s.Bytes? ==> forall k :: 0 <= k < |roots| ==> !(s.addr < roots[k] < s.addr + s.size)
  }

  lemma {:induction false} UncutStays(s: Segment, roots: seq<u64>)
    requires ValidSegment(s) && Ascending(roots) && Uncut(s, roots)
    ensures SplitSegment(s, roots) == [s]
  {
    if s.Bytes? {
      NothingInside(s.addr, s.size, roots);
    }
  }

  lemma {:induction false} NothingInside(addr: u64, size: nat, roots: seq<u64>)
    requires forall k :: 0 <= k < |roots| ==> !(addr < roots[k] < addr + size)
    ensures Inside(addr, size, roots) == []
  {
    if roots != [] {
      NothingInside(addr, size, roots[1..]);
    }
  }

  lemma {:induction false} InsideComplete(addr: u64, size: nat, roots: seq<u64>, root: u64)
    ensures root in roots && addr < root < addr + size <==> root >= addr && root - addr in Inside(addr, size, roots)
  {
    if roots != [] {
      InsideComplete(addr, size, roots[1..], root);
    }
  }

  /** No cut lies strictly between consecutive cuts. */
  lemma {:induction false} SubrunsUncut(addr: u64, section: u32, size: nat, from: nat, offsets: seq<u64>, roots: seq<u64>)
    requires from < size && addr + size <= U64_LIMIT && Offsets(offsets, from, size)
    requires forall root :: root in roots && addr + from < root < addr + size ==> root - addr in offsets
    ensures forall k :: 0 <= k < |Subruns(addr, section, size, from, offsets)| ==>
                        Uncut(Subruns(addr, section, size, from, offsets)[k], roots)
    decreases |offsets|
  {
    assert forall k :: 0 <= k < |roots| ==> roots[k] in roots;
    if offsets != [] {
      assert forall o :: o in offsets ==> o == offsets[0] || o in offsets[1..];
      OffsetsBeyond(offsets[1..], offsets[0], size);
      SubrunsUncut(addr, section, size, offsets[0], offsets[1..], roots);
    }
  }

  lemma {:induction false} OffsetsBeyond(offsets: seq<u64>, from: nat, size: nat)
    requires Offsets(offsets, from, size)
    ensures forall o :: o in offsets ==> from < o < size
  {
    if offsets != [] {
      assert forall o :: o in offsets ==> o == offsets[0] || o in offsets[1..];
      OffsetsBeyond(offsets[1..], offsets[0], size);
    }
  }

  lemma SplitSegmentUncut(s: Segment, roots: seq<u64>)
    requires ValidSegment(s) && Ascending(roots)
    ensures forall k :: 0 <= k < |SplitSegment(s, roots)| ==> Uncut(SplitSegment(s, roots)[k], roots)
  {
    if s.Bytes? {
      var offsets := Inside(s.addr, s.size, roots);
      InsideOffsets(s.addr, s.size, roots, 0);
      forall root | root in roots && s.addr < root < s.addr + s.size
        ensures root - s.addr in offsets
      {
        InsideComplete(s.addr, s.size, roots, root);
      }
      SubrunsUncut(s.addr, s.section, s.size, 0, offsets, roots);
    }
  }

  lemma {:induction false} SplitUncut(segments: seq<Segment>, roots: seq<u64>)
    requires ValidSegments(segments) && Ascending(roots)
    ensures forall k :: 0 <= k < |Split(segments, roots)| ==> Uncut(Split(segments, roots)[k], roots)
  {
    if segments != [] {
      SplitSegmentUncut(segments[0], roots);
      assert ValidSegments(segments[1..]) by {
        assert forall k :: 0 <= k < |segments[1..]| ==> segments[1..][k] == segments[k + 1];
      }
      SplitUncut(segments[1..], roots);
    }
  }

  lemma {:induction false} UncutSplitsToItself(segments: seq<Segment>, roots: seq<u64>)
    requires ValidSegments(segments) && Ascending(roots)
    requires forall k :: 0 <= k < |segments| ==> Uncut(segments[k], roots)
    ensures Split(segments, roots) == segments
  {
    if segments != [] {
      UncutStays(segments[0], roots);
      assert forall k :: 0 <= k < |segments[1..]| ==> segments[1..][k] == segments[k + 1];
      UncutSplitsToItself(segments[1..], roots);
      assert segments == [segments[0]] + segments[1..];
    }
  }

  /** The result is a listing of exactly the cut runs. */
  lemma NormalizedDescribes(rows: seq<Row>, roots: seq<u64>)
    requires Listing(rows) && Ascending(roots)
    ensures ValidSegments(Parse(rows))
    ensures Describes(Normalized(rows, roots), Split(Parse(rows), roots))
  {
    hide Parse, Split, Render;
    ParseValid(rows);
    SplitValid(Parse(rows), roots);
    ParseRender(Split(Parse(rows), roots), 0);
  }

  /** Normalising again with the same roots changes nothing. */
  lemma NormalizeIdempotent(rows: seq<Row>, roots: seq<u64>)
    requires Listing(rows) && Ascending(roots)
    ensures Listing(Normalized(rows, roots))
    ensures Normalized(Normalized(rows, roots), roots) == Normalized(rows, roots)
  {
    hide Parse, Split, Render, Listing;
    NormalizedDescribes(rows, roots);
    ParseValid(rows);
    SplitValid(Parse(rows), roots);
    SplitUncut(Parse(rows), roots);
    UncutSplitsToItself(Split(Parse(rows), roots), roots);
  }

  // ---------------------------------------------------------------------------
  // Conservation, byte by byte.

  /** One code byte and whether it continues its predecessor's run; an empty page; or another row. */
  datatype Item = Byte(addr: u64, section: u32, joined: bool) | EmptyPage(addr: u64, section: u32) | Row(payload: nat)

  ghost function BytesOf(addr: u64, section: u32, size: nat, joined: bool): (items: seq<Item>)
    requires addr + size <= U64_LIMIT
    ensures |items| == size
  {
    seq(size, k requires 0 <= k < size => Byte(addr + k, section, joined || k > 0))
  }

  ghost function RowItems(row: Row, joined: bool): seq<Item>
    requires row.CodePage? ==> row.addr + row.aux <= U64_LIMIT
  {
    match row
    case Other(payload) => [Item.Row(payload)]
    case CodePage(addr, section, aux, _) => if aux == 0 then [EmptyPage(addr, section)] else BytesOf(addr, section, aux, joined)
  }

  /** A listing as the bytes it describes, in order, each marked when its page run reaches back over it. */
  ghost function Items(rows: seq<Row>, joined: bool): seq<Item>
    requires Listing(rows)
  {
    if rows == [] then []
    else
      assert forall k :: 0 <= k < |rows[1..]| ==> rows[1..][k] == rows[k + 1];
      RowItems(rows[0], joined) + Items(rows[1..], |rows| > 1 && Joins(rows[0], rows[1]))
  }

  ghost function SegmentItems(s: Segment): seq<Item>
    requires ValidSegment(s)
  {
    match s
    case Kept(payload) => [Item.Row(payload)]
    case Empty(addr, section) => [EmptyPage(addr, section)]
    case Bytes(addr, section, size) => BytesOf(addr, section, size, false)
  }

  ghost function AllItems(segments: seq<Segment>): seq<Item>
    requires ValidSegments(segments)
  {
    if segments == [] then [] else SegmentItems(segments[0]) + AllItems(segments[1..])
  }

  /** The same byte, now starting a run if it is a root. */
  ghost function CutItem(item: Item, roots: seq<u64>): Item {
    if item.Byte? && item.addr in roots then item.(joined := false) else item
  }

  ghost function CutItems(items: seq<Item>, roots: seq<u64>): (cut: seq<Item>)
    ensures |cut| == |items| && forall k :: 0 <= k < |items| ==> cut[k] == CutItem(items[k], roots)
  {
    if items == [] then [] else [CutItem(items[0], roots)] + CutItems(items[1..], roots)
  }

  lemma BytesOfSplit(addr: u64, section: u32, n: nat, m: nat, joined: bool)
    requires 0 < n && 0 < m && addr + n + m <= U64_LIMIT
    ensures BytesOf(addr, section, n + m, joined) == BytesOf(addr, section, n, joined) + BytesOf(addr + n, section, m, true)
  {
  }

  /** The defining equations, for a listing that is not empty. */
  lemma ItemsStep(rows: seq<Row>, joined: bool)
    requires Listing(rows) && rows != []
    ensures Listing(rows[1..])
    ensures rows[0].CodePage? ==> rows[0].addr + rows[0].aux <= U64_LIMIT
    ensures |rows| > 1 && Joins(rows[0], rows[1]) ==> SegmentOf(rows[0]).Bytes? && SegmentOf(rows[1]).Bytes?
    ensures var joins := |rows| > 1 && Joins(rows[0], rows[1]);
            && Items(rows, joined) == RowItems(rows[0], joined) + Items(rows[1..], joins)
            && Parse(rows) == if joins then [Bytes(rows[0].addr, rows[0].section, rows[0].aux + Parse(rows[1..])[0].size)] + Parse(rows[1..])[1..]
                              else [SegmentOf(rows[0])] + Parse(rows[1..])
  {
    assert forall k :: 0 <= k < |rows[1..]| ==> rows[1..][k] == rows[k + 1];
  }

  lemma AllItemsStep(s: Segment, rest: seq<Segment>)
    requires ValidSegments([s] + rest)
    ensures ValidSegment(s) && ValidSegments(rest)
    ensures AllItems([s] + rest) == SegmentItems(s) + AllItems(rest)
  {
    assert ([s] + rest)[1..] == rest && ([s] + rest)[0] == s;
    assert forall k :: 0 <= k < |rest| ==> rest[k] == ([s] + rest)[k + 1];
  }

  lemma RowItemsAreSegmentItems(row: Row, joined: bool)
    requires row.CodePage? ==> row.addr + row.aux <= U64_LIMIT
    ensures ValidSegment(SegmentOf(row))
    ensures SegmentOf(row).Bytes? <==> row.CodePage? && row.aux != 0
    ensures SegmentOf(row).Bytes? ==>
      SegmentOf(row) == Bytes(row.addr, row.section, row.aux) && RowItems(row, joined) == BytesOf(row.addr, row.section, row.aux, joined)
    ensures !SegmentOf(row).Bytes? ==> RowItems(row, joined) == SegmentItems(SegmentOf(row))
  {
  }

  lemma ItemsNothing(joined: bool)
    ensures Listing([]) && Items([], joined) == [] && Parse([]) == [] && AllItems([]) == []
  {
  }

  lemma {:induction false} ItemsAreSegmentItems(rows: seq<Row>, joined: bool)
    requires Listing(rows)
    ensures ValidSegments(Parse(rows))
    ensures rows != [] && SegmentOf(rows[0]).Bytes? ==>
      Parse(rows)[0].size > 0 && Parse(rows)[0].addr + Parse(rows)[0].size <= U64_LIMIT &&
      ValidSegments(Parse(rows)[1..]) &&
      Items(rows, joined) == BytesOf(rows[0].addr, rows[0].section, Parse(rows)[0].size, joined) + AllItems(Parse(rows)[1..])
    ensures (rows == [] || !SegmentOf(rows[0]).Bytes? || !joined) ==> Items(rows, joined) == AllItems(Parse(rows))
  {
    hide Items, AllItems, Parse, BytesOf, Listing, RowItems, SegmentOf;
    ParseValid(rows);
    if rows == [] {
      ItemsNothing(joined);
    } else {
      var p := rows[0];
      var rest := rows[1..];
      ItemsStep(rows, joined);
      RowItemsAreSegmentItems(p, joined);
      ParseValid(rest);
      var joins := |rows| > 1 && Joins(rows[0], rows[1]);
      ItemsAreSegmentItems(rest, joins);
      AllItemsStep(Parse(rows)[0], Parse(rows)[1..]);
      assert Parse(rows) == [Parse(rows)[0]] + Parse(rows)[1..];
      if joins {
        BytesOfSplit(p.addr, p.section, p.aux, Parse(rest)[0].size, joined);
        assert Parse(rows)[1..] == Parse(rest)[1..];
      } else {
        assert Parse(rows)[1..] == Parse(rest);
      }
    }
  }

  /** A run without interior roots is not cut. */
  lemma CutRootless(addr: u64, section: u32, size: nat, roots: seq<u64>)
    requires addr + size <= U64_LIMIT && forall root :: addr < root < addr + size ==> root !in roots
    ensures CutItems(BytesOf(addr, section, size, false), roots) == BytesOf(addr, section, size, false)
  {
  }

  /** At a root it makes no difference whether the bytes before it continued into it. */
  lemma CutAtRoot(addr: u64, section: u32, size: nat, roots: seq<u64>)
    requires addr + size <= U64_LIMIT && addr in roots
    ensures CutItems(BytesOf(addr, section, size, true), roots) == CutItems(BytesOf(addr, section, size, false), roots)
  {
  }

  lemma {:induction false} SubrunItems(addr: u64, section: u32, size: nat, from: nat, offsets: seq<u64>, roots: seq<u64>)
    requires from < size && addr + size <= U64_LIMIT && Offsets(offsets, from, size)
    requires forall root: int :: addr + from < root < addr + size ==> (root in roots <==> root - addr in offsets)
    ensures ValidSegments(Subruns(addr, section, size, from, offsets))
    ensures AllItems(Subruns(addr, section, size, from, offsets)) ==
            CutItems(BytesOf(addr + from, section, size - from, false), roots)
    decreases |offsets|
  {
    hide AllItems, BytesOf, CutItems;
    SubrunsValid(addr, section, size, from, offsets);
    OffsetsBeyond(offsets, from, size);
    var runs := Subruns(addr, section, size, from, offsets);
    AllItemsStep(runs[0], runs[1..]);
    assert runs == [runs[0]] + runs[1..];
    if offsets == [] {
      ItemsNothing(false);
      CutRootless(addr + from, section, size - from, roots);
    } else {
      var cut := offsets[0];
      OffsetsBeyond(offsets[1..], cut, size);
      assert forall o :: o in offsets <==> o == cut || o in offsets[1..];
      SubrunItems(addr, section, size, cut, offsets[1..], roots);
      BytesOfSplit(addr + from, section, cut - from, size - cut, false);
      CutItemsAppend(BytesOf(addr + from, section, cut - from, false), BytesOf(addr + cut, section, size - cut, true), roots);
      CutRootless(addr + from, section, cut - from, roots);
      assert addr + cut in roots;
      CutAtRoot(addr + cut, section, size - cut, roots);
      assert runs[1..] == Subruns(addr, section, size, cut, offsets[1..]);
    }
  }

  lemma {:induction false} AllItemsAppend(a: seq<Segment>, b: seq<Segment>)
    requires ValidSegments(a) && ValidSegments(b)
    ensures ValidSegments(a + b) && AllItems(a + b) == AllItems(a) + AllItems(b)
  {
    hide AllItems, SegmentItems, ValidSegment;
    if a == [] {
      ItemsNothing(false);
      assert a + b == b;
    } else {
      var s, rest := a[0], a[1..];
      assert a == [s] + rest && a + b == [s] + (rest + b);
      AllItemsStep(s, rest);
      AllItemsAppend(rest, b);
      assert forall k :: 0 <= k < |a + b| ==> ValidSegment((a + b)[k]);
      AllItemsStep(s, rest + b);
      Associate(SegmentItems(s), AllItems(rest), AllItems(b));
    }
  }

  lemma {:induction false} CutItemsAppend(a: seq<Item>, b: seq<Item>, roots: seq<u64>)
    ensures CutItems(a + b, roots) == CutItems(a, roots) + CutItems(b, roots)
  {
  }

  lemma {:induction false} SplitItems(segments: seq<Segment>, roots: seq<u64>)
    requires ValidSegments(segments) && Ascending(roots)
    ensures ValidSegments(Split(segments, roots))
    ensures AllItems(Split(segments, roots)) == CutItems(AllItems(segments), roots)
  {
    SplitValid(segments, roots);
    if segments != [] {
      var s := segments[0];
      var rest := segments[1..];
      assert forall k :: 0 <= k < |rest| ==> rest[k] == segments[k + 1];
      SplitItems(rest, roots);
      SplitOneItems(s, roots);
      AllItemsAppend(SplitSegment(s, roots), Split(rest, roots));
      CutItemsAppend(SegmentItems(s), AllItems(rest), roots);
    }
  }

  lemma CutOther(item: Item, roots: seq<u64>)
    requires !item.Byte?
    ensures CutItems([item], roots) == [item]
  {
  }

  lemma SplitOneItems(s: Segment, roots: seq<u64>)
    requires ValidSegment(s) && Ascending(roots)
    ensures ValidSegments(SplitSegment(s, roots))
    ensures AllItems(SplitSegment(s, roots)) == CutItems(SegmentItems(s), roots)
  {
    hide AllItems, BytesOf, CutItems;
    if s.Bytes? {
      InsideOffsets(s.addr, s.size, roots, 0);
      forall root: int | s.addr < root < s.addr + s.size
        ensures root in roots <==> root - s.addr in Inside(s.addr, s.size, roots)
      {
        InsideComplete(s.addr, s.size, roots, root);
      }
      SubrunItems(s.addr, s.section, s.size, 0, Inside(s.addr, s.size, roots), roots);
    } else {
      AllItemsStep(s, []);
      ItemsNothing(false);
      assert [s] + [] == [s];
      CutOther(SegmentItems(s)[0], roots);
    }
  }

  /**
    Normalisation conserves every byte, empty page and other row, in order; a byte still continues
    its predecessor's run exactly when it did before and is not a root.
   */
  lemma NormalizeConserves(rows: seq<Row>, roots: seq<u64>)
    requires Listing(rows) && Ascending(roots)
    ensures Listing(Normalized(rows, roots))
    ensures Items(Normalized(rows, roots), false) == CutItems(Items(rows, false), roots)
  {
    hide Parse, Split, Render, Listing, Items, AllItems, CutItems, SegmentOf;
    NormalizedDescribes(rows, roots);
    ItemsAreSegmentItems(rows, false);
    ItemsAreSegmentItems(Normalized(rows, roots), false);
    SplitItems(Parse(rows), roots);
  }

  // ---------------------------------------------------------------------------
  // Page sizes, page starts and identities of the result.

  lemma {:induction false} PagesShape(addr: u64, section: u32, size: nat, region: u32)
    requires addr + size <= U64_LIMIT
    ensures forall k :: 0 <= k < |Pages(addr, section, size, region)| ==>
      var page := Pages(addr, section, size, region)[k];
      page.CodePage? && 0 < page.aux <= CODE_PAGE_BYTES && page.region == region
    ensures forall k :: 0 <= k < |Pages(addr, section, size, region)| - 1 ==> Pages(addr, section, size, region)[k].aux == CODE_PAGE_BYTES
    ensures forall k :: 0 <= k < |Pages(addr, section, size, region)| - 1 ==>
      Joins(Pages(addr, section, size, region)[k], Pages(addr, section, size, region)[k + 1])
    decreases size
  {
    if size > CODE_PAGE_BYTES {
      var more := Pages(addr + CODE_PAGE_BYTES, section, size - CODE_PAGE_BYTES, region);
      PagesShape(addr + CODE_PAGE_BYTES, section, size - CODE_PAGE_BYTES, region);
      assert more[0].addr == addr + CODE_PAGE_BYTES;
      assert forall k :: 0 < k < |Pages(addr, section, size, region)| ==> Pages(addr, section, size, region)[k] == more[k - 1];
    }
  }

  /** Pages are at most 4 KiB, and a page whose run goes on is no smaller. */
  ghost predicate Paginated(rows: seq<Row>) {
    && (forall k :: 0 <= k < |rows| && rows[k].CodePage? ==> rows[k].aux <= 0x1000)
    && (forall k :: 0 <= k < |rows| - 1 && Joins(rows[k], rows[k + 1]) ==> rows[k].aux == 0x1000)
  }

  /** Pages of the next segment do not continue this one's. */
  lemma PaginatedAppend(a: seq<Row>, b: seq<Row>, region: u32)
    requires Paginated(a) && Paginated(b) && (a != [] && a[|a| - 1].CodePage? ==> Foreign(b, region))
    requires forall k :: 0 <= k < |a| && a[k].CodePage? ==> a[k].region == region
    ensures Paginated(a + b)
  {
    var rows := a + b;
    forall k | 0 <= k < |rows| - 1 && Joins(rows[k], rows[k + 1])
      ensures rows[k].aux == 0x1000
    {
      if k + 1 < |a| {
        assert Joins(a[k], a[k + 1]);
      } else if |a| <= k {
        assert Joins(b[k - |a|], b[k - |a| + 1]);
      } else {
        assert false;
      }
    }
  }

  /** Numbers are at least `least`, and pages under one number are one uninterrupted run. */
  ghost predicate WellNumbered(rows: seq<Row>, least: nat) {
    && (forall k :: 0 <= k < |rows| && rows[k].CodePage? ==> least <= rows[k].region)
    && (forall i, j :: 0 <= i < j < |rows| && rows[i].CodePage? && rows[j].CodePage? && rows[i].region == rows[j].region ==>
          Joins(rows[i], rows[i + 1]))
  }

  lemma SegmentNumbered(s: Segment, region: u32)
    requires ValidSegment(s)
    ensures Paginated(RenderSegment(s, region)) && WellNumbered(RenderSegment(s, region), region)
    ensures forall k :: 0 <= k < |RenderSegment(s, region)| && RenderSegment(s, region)[k].CodePage? ==>
                        RenderSegment(s, region)[k].region == region
    ensures s.Kept? ==> forall k :: 0 <= k < |RenderSegment(s, region)| ==> !RenderSegment(s, region)[k].CodePage?
  {
    if s.Bytes? {
      PagesShape(s.addr, s.section, s.size, region);
    }
  }

  lemma NumberedAppend(a: seq<Row>, b: seq<Row>, least: nat, next: nat)
    requires WellNumbered(a, least) && WellNumbered(b, next) && least <= next
    requires forall k :: 0 <= k < |a| && a[k].CodePage? ==> a[k].region < next
    ensures WellNumbered(a + b, least)
  {
    var rows := a + b;
    forall i, j | 0 <= i < j < |rows| && rows[i].CodePage? && rows[j].CodePage? && rows[i].region == rows[j].region
      ensures Joins(rows[i], rows[i + 1])
    {
      if j < |a| {
        assert a[i].region == a[j].region;
      } else if i < |a| {
        assert false;
      } else {
        assert b[i - |a|].region == b[j - |a|].region;
      }
    }
  }

  lemma {:induction false} RenderPaginated(segments: seq<Segment>, run: nat)
    requires ValidSegments(segments)
    ensures Paginated(Render(segments, run))
    decreases |segments|
  {
    hide RenderSegment, Number, Paginated;
    if segments == [] {
      NothingPaginated(run);
    } else {
      var s, rest := segments[0], segments[1..];
      assert segments == [s] + rest;
      RenderStep(s, rest, run);
      RenderPaginated(rest, if s.Kept? then run else run + 1);
      SegmentNumbered(s, Number(run));
      RenderForeign(rest, run);
      PaginatedAppend(RenderSegment(s, Number(run)), Render(rest, if s.Kept? then run else run + 1), Number(run));
    }
  }

  lemma NothingPaginated(run: nat)
    ensures Paginated(Render([], run))
  {
  }

  lemma {:induction false} RenderNumbered(segments: seq<Segment>, run: nat)
    requires ValidSegments(segments)
    ensures run + Regions(segments) <= U32_MAX ==> WellNumbered(Render(segments, run), run + 1)
    decreases |segments|
  {
    hide RenderSegment;
    if segments != [] {
      var next := if segments[0].Kept? then run else run + 1;
      assert forall k :: 0 <= k < |segments[1..]| ==> segments[1..][k] == segments[k + 1];
      RenderNumbered(segments[1..], next);
      SegmentNumbered(segments[0], Number(run));
      if run + Regions(segments) <= U32_MAX {
        if segments[0].Kept? {
          assert WellNumbered(RenderSegment(segments[0], Number(run)), run + 1);
        }
        NumberedAppend(RenderSegment(segments[0], Number(run)), Render(segments[1..], next), run + 1, next + 1);
      }
    }
  }

  /** The numbers a listing takes once it is cut: one for each subrun and for each empty page. */
  ghost function RunCount(rows: seq<Row>, roots: seq<u64>): nat
    requires Listing(rows) && Ascending(roots)
  {
    ParseValid(rows);
    Regions(Split(Parse(rows), roots))
  }

  lemma NormalizedWellNumbered(rows: seq<Row>, roots: seq<u64>)
    requires Listing(rows) && Ascending(roots)
    ensures Paginated(Normalized(rows, roots))
    ensures RunCount(rows, roots) <= U32_MAX ==> WellNumbered(Normalized(rows, roots), 1)
  {
    hide Parse, Split, Render, Paginated, WellNumbered;
    ParseValid(rows);
    SplitValid(Parse(rows), roots);
    RenderNumbered(Split(Parse(rows), roots), 0);
    RenderPaginated(Split(Parse(rows), roots), 0);
  }

  ghost predicate StartsPage(rows: seq<Row>, section: u32, a: int) {
    exists k :: 0 <= k < |rows| && rows[k].CodePage? && rows[k].aux > 0 && rows[k].addr == a && rows[k].section == section
  }

  /** A byte that continues nothing is the first byte of a page. */
  lemma {:induction false} UnjoinedStartsPage(rows: seq<Row>, joined: bool, i: nat)
    requires Listing(rows) && i < |Items(rows, joined)| && Items(rows, joined)[i].Byte? && !Items(rows, joined)[i].joined
    ensures StartsPage(rows, Items(rows, joined)[i].section, Items(rows, joined)[i].addr)
  {
    ItemsStep(rows, joined);
    var head := RowItems(rows[0], joined);
    var joins := |rows| > 1 && Joins(rows[0], rows[1]);
    if i >= |head| {
      assert Items(rows, joined)[i] == Items(rows[1..], joins)[i - |head|];
      UnjoinedStartsPage(rows[1..], joins, i - |head|);
      var k :| 0 <= k < |rows[1..]| && rows[1..][k].CodePage? && rows[1..][k].aux > 0 &&
               rows[1..][k].addr == Items(rows, joined)[i].addr && rows[1..][k].section == Items(rows, joined)[i].section;
      assert rows[k + 1] == rows[1..][k];
    }
  }

  /** Every root over a code byte of the listing starts a page of the result. */
  lemma RootStartsPage(rows: seq<Row>, roots: seq<u64>, i: nat)
    requires Listing(rows) && Ascending(roots)
    requires i < |Items(rows, false)| && Items(rows, false)[i].Byte? && Items(rows, false)[i].addr in roots
    ensures StartsPage(Normalized(rows, roots), Items(rows, false)[i].section, Items(rows, false)[i].addr)
  {
    hide Items, Normalized;
    NormalizeConserves(rows, roots);
    UnjoinedStartsPage(Normalized(rows, roots), false, i);
  }

  /** Some page of the section describes the byte. */
  ghost predicate Paged(rows: seq<Row>, section: u32, a: int) {
    exists k :: 0 <= k < |rows| && rows[k].CodePage? && rows[k].section == section && rows[k].addr <= a < rows[k].addr + rows[k].aux
  }

  ghost predicate ItemAt(items: seq<Item>, t: int, section: u32, a: int) {
    0 <= t < |items| && items[t].Byte? && items[t].section == section && items[t].addr == a
  }

  /** The items of a listing are the bytes its pages describe. */
  lemma {:induction false} PagedIffItem(rows: seq<Row>, joined: bool, section: u32, a: int)
    requires Listing(rows)
    ensures Paged(rows, section, a) <==> exists t :: ItemAt(Items(rows, joined), t, section, a)
  {
    hide Items, Listing;
    if rows == [] {
      ItemsNothing(joined);
    } else {
      ItemsStep(rows, joined);
      var joins := |rows| > 1 && Joins(rows[0], rows[1]);
      var head, rest := RowItems(rows[0], joined), Items(rows[1..], joins);
      PagedIffItem(rows[1..], joins, section, a);
      RowPages(rows[0], joined, section, a);
      ItemAtAppend(head, rest, section, a);
      assert forall k :: 0 <= k < |rows[1..]| ==> rows[1..][k] == rows[k + 1];
    }
  }

  lemma RowPages(row: Row, joined: bool, section: u32, a: int)
    requires row.CodePage? ==> row.addr + row.aux <= U64_LIMIT
    ensures (row.CodePage? && row.section == section && row.addr <= a < row.addr + row.aux) <==> exists t :: ItemAt(RowItems(row, joined), t, section, a)
  {
    if row.CodePage? && row.section == section && row.addr <= a < row.addr + row.aux {
      assert ItemAt(RowItems(row, joined), a - row.addr, section, a);
    }
  }

  lemma ItemAtAppend(head: seq<Item>, rest: seq<Item>, section: u32, a: int)
    ensures (exists t :: ItemAt(head + rest, t, section, a)) <==> (exists t :: ItemAt(head, t, section, a)) || (exists t :: ItemAt(rest, t, section, a))
  {
    if t :| ItemAt(head, t, section, a) {
      assert ItemAt(head + rest, t, section, a);
    }
    if t :| ItemAt(rest, t, section, a) {
      assert ItemAt(head + rest, t + |head|, section, a);
    }
    if t :| ItemAt(head + rest, t, section, a) {
      assert t < |head| ==> ItemAt(head, t, section, a);
      assert t >= |head| ==> ItemAt(rest, t - |head|, section, a);
    }
  }

  /** Normalisation pages exactly the bytes that were paged before. */
  lemma NormalizePagesSameBytes(rows: seq<Row>, roots: seq<u64>, section: u32, a: int)
    requires Listing(rows) && Ascending(roots)
    ensures Paged(Normalized(rows, roots), section, a) <==> Paged(rows, section, a)
  {
    hide Items, Normalized, Listing, Paged;
    NormalizeConserves(rows, roots);
    var before, after := Items(rows, false), Items(Normalized(rows, roots), false);
    PagedIffItem(rows, false, section, a);
    PagedIffItem(Normalized(rows, roots), false, section, a);
    forall t
      ensures ItemAt(after, t, section, a) <==> ItemAt(before, t, section, a)
    {
      if 0 <= t < |before| {
        assert after[t] == CutItem(before[t], roots);
      }
    }
  }

  /** A root over any paged byte starts a page of the result. */
  lemma PagedRootStartsPage(rows: seq<Row>, roots: seq<u64>, section: u32, root: u64)
    requires Listing(rows) && Ascending(roots) && root in roots && Paged(rows, section, root)
    ensures StartsPage(Normalized(rows, roots), section, root)
  {
    hide Items, Normalized, Listing, Paged;
    PagedIffItem(rows, false, section, root);
    var t :| ItemAt(Items(rows, false), t, section, root);
    RootStartsPage(rows, roots, t);
  }

  // ---------------------------------------------------------------------------
  // What a number tells.

  /** How many items a row stands for, and which of them is its first. */
  ghost function Length(row: Row): nat {
    if row.CodePage? && row.aux > 0 then row.aux else 1
  }

  ghost function Start(rows: seq<Row>, k: nat): nat
    requires k <= |rows|
  {
    if k == 0 then 0 else Length(rows[0]) + Start(rows[1..], k - 1)
  }

  ghost predicate Continues(item: Item) {
    item.Byte? && item.joined
  }

  ghost predicate Follows(item: Item, roots: seq<u64>) {
    item.Byte? && item.joined && item.addr !in roots
  }

  /** Every item after `from`, up to `to`, is a byte that continues the one before it and is no root. */
  ghost predicate OneSubrun(items: seq<Item>, roots: seq<u64>, from: nat, to: nat) {
    && to < |items|
    && forall t :: from < t <= to ==> Follows(items[t], roots)
  }

  /** Each row continues the run of the one before it. */
  ghost predicate Chained(rows: seq<Row>, i: nat, j: nat)
    requires i <= j < |rows|
  {
    forall k :: i <= k < j ==> Joins(rows[k], rows[k + 1])
  }

  /** A row's first item continues the row before exactly when the rows join, and its other items always do. */
  lemma {:induction false} RowAt(rows: seq<Row>, joined: bool, k: nat)
    requires Listing(rows) && k < |rows|
    ensures Start(rows, k + 1) == Start(rows, k) + Length(rows[k]) <= |Items(rows, joined)|
    ensures k > 0 ==> (Continues(Items(rows, joined)[Start(rows, k)]) <==> Joins(rows[k - 1], rows[k]))
    ensures k == 0 && rows[0].CodePage? && rows[0].aux > 0 ==> (Continues(Items(rows, joined)[0]) <==> joined)
    ensures k == 0 && !(rows[0].CodePage? && rows[0].aux > 0) ==> !Continues(Items(rows, joined)[0])
    ensures forall t :: Start(rows, k) < t < Start(rows, k + 1) ==> Continues(Items(rows, joined)[t])
  {
    hide Items, Joins, Listing;
    ItemsStep(rows, joined);
    var joins := |rows| > 1 && Joins(rows[0], rows[1]);
    var head, rest := RowItems(rows[0], joined), Items(rows[1..], joins);
    if k > 0 {
      RowAt(rows[1..], joins, k - 1);
      assert forall t :: |head| <= t < |head| + |rest| ==> Items(rows, joined)[t] == rest[t - |head|];
      JoinsNeedBytes(rows[k - 1], rows[k]);
    }
  }

  lemma JoinsNeedBytes(before: Row, after: Row)
    ensures Joins(before, after) ==> after.CodePage? && after.aux > 0 && after.region == before.region
  {
  }

  /**
    The first byte of a page continues the byte before it exactly when that ends a page of the same number and
    section, right before it.
   */
  lemma PageContinues(rows: seq<Row>, k: nat)
    requires Listing(rows) && k + 1 < |rows|
    ensures Start(rows, k + 1) < |Items(rows, false)|
    ensures Continues(Items(rows, false)[Start(rows, k + 1)]) <==>
            && rows[k].CodePage? && 0 < rows[k].aux && rows[k + 1].CodePage? && 0 < rows[k + 1].aux
            && rows[k].region == rows[k + 1].region && rows[k].section == rows[k + 1].section
            && rows[k].addr + rows[k].aux == rows[k + 1].addr
  {
    hide Items, Listing;
    RowAt(rows, false, k + 1);
  }

  lemma {:induction false} ChainAt(rows: seq<Row>, i: nat, j: nat)
    requires Listing(rows) && i <= j < |rows|
    ensures Start(rows, i) <= Start(rows, j) < |Items(rows, false)|
    ensures Chained(rows, i, j) <==>
            forall t :: Start(rows, i) < t <= Start(rows, j) ==> Continues(Items(rows, false)[t])
    decreases j - i
  {
    hide Items, Start, Joins, Listing, Continues;
    RowAt(rows, false, j);
    if i < j {
      RowAt(rows, false, j - 1);
      ChainAt(rows, i, j - 1);
      assert Chained(rows, i, j) <==> Chained(rows, i, j - 1) && Joins(rows[j - 1], rows[j]);
    }
  }

  lemma CutContinues(item: Item, roots: seq<u64>)
    ensures Continues(CutItem(item, roots)) <==> Follows(item, roots)
  {
  }

  /** Rows of the result are chained exactly when they lie in one root-free subrun of the original listing. */
  lemma SubrunsAreChains(rows: seq<Row>, roots: seq<u64>, i: nat, j: nat)
    requires Listing(rows) && Ascending(roots) && i <= j < |Normalized(rows, roots)|
    ensures var pages := Normalized(rows, roots);
            OneSubrun(Items(rows, false), roots, Start(pages, i), Start(pages, j)) <==> Chained(pages, i, j)
  {
    hide Items, Normalized, Start, Joins, Listing, Continues, CutItem, Chained, Follows;
    var pages, items := Normalized(rows, roots), Items(rows, false);
    NormalizeConserves(rows, roots);
    ChainAt(pages, i, j);
    forall t | 0 <= t < |items|
      ensures Continues(Items(pages, false)[t]) <==> Follows(items[t], roots)
    {
      CutContinues(items[t], roots);
    }
  }

  /** Two pages share a number exactly when they lie in one root-free contiguous subrun of the original listing. */
  ghost predicate NumbersTellRuns(rows: seq<Row>, roots: seq<u64>, pages: seq<Row>)
    requires Listing(rows)
  {
    forall i, j :: 0 <= i < j < |pages| && pages[i].CodePage? && pages[j].CodePage? ==>
      (pages[i].region == pages[j].region <==> OneSubrun(Items(rows, false), roots, Start(pages, i), Start(pages, j)))
  }

  lemma {:induction false} ChainedShare(rows: seq<Row>, i: nat, j: nat)
    requires i <= j < |rows| && Chained(rows, i, j) && rows[i].CodePage?
    ensures rows[j].CodePage? && rows[j].region == rows[i].region
    decreases j - i
  {
    if i < j {
      ChainedShare(rows, i, j - 1);
    }
  }

  /** Between two pages of one number every row continues the one before. */
  lemma {:induction false} SharedChained(rows: seq<Row>, least: nat, i: nat, j: nat)
    requires WellNumbered(rows, least) && i <= j < |rows|
    requires rows[i].CodePage? && rows[j].CodePage? && rows[i].region == rows[j].region
    ensures Chained(rows, i, j)
    decreases j - i
  {
    if i < j {
      assert Joins(rows[i], rows[i + 1]);
      SharedChained(rows, least, i + 1, j);
    }
  }

  /** Where the rows of the `n`-th numbered segment start. */
  ghost function RunStart(segments: seq<Segment>, run: nat, n: nat): nat
    requires ValidSegments(segments) && n < Regions(segments)
    decreases |segments|
  {
    assert forall k :: 0 <= k < |segments[1..]| ==> segments[1..][k] == segments[k + 1];
    if segments[0].Kept? then 1 + RunStart(segments[1..], run, n)
    else if n == 0 then 0
    else |RenderSegment(segments[0], Number(run))| + RunStart(segments[1..], run + 1, n - 1)
  }

  lemma FirstOfSegment(s: Segment, region: u32)
    requires ValidSegment(s)
    ensures RenderSegment(s, region) != []
    ensures s.Kept? ==> |RenderSegment(s, region)| == 1
    ensures !s.Kept? ==> RenderSegment(s, region)[0].CodePage? && RenderSegment(s, region)[0].region == region
  {
  }

  lemma {:induction false} RunStartNumber(segments: seq<Segment>, run: nat, n: nat)
    requires ValidSegments(segments) && n < Regions(segments)
    ensures var rows := Render(segments, run);
            RunStart(segments, run, n) < |rows| && rows[RunStart(segments, run, n)].CodePage? &&
            rows[RunStart(segments, run, n)].region == Number(run + n)
    decreases |segments|
  {
    hide Number, Render, RenderSegment;
    var s, rest := segments[0], segments[1..];
    assert segments == [s] + rest;
    RenderStep(s, rest, run);
    var head := RenderSegment(s, Number(run));
    FirstOfSegment(s, Number(run));
    if s.Kept? {
      RunStartNumber(rest, run, n);
      assert (head + Render(rest, run))[1 + RunStart(rest, run, n)] == Render(rest, run)[RunStart(rest, run, n)];
    } else if n > 0 {
      RunStartNumber(rest, run + 1, n - 1);
      assert (head + Render(rest, run + 1))[|head| + RunStart(rest, run + 1, n - 1)] ==
             Render(rest, run + 1)[RunStart(rest, run + 1, n - 1)];
    }
  }

  lemma {:induction false} RunStartAscends(segments: seq<Segment>, run: nat, n: nat)
    requires ValidSegments(segments) && n + 1 < Regions(segments)
    ensures RunStart(segments, run, n) < RunStart(segments, run, n + 1)
    decreases |segments|
  {
    hide Number;
    assert forall k :: 0 <= k < |segments[1..]| ==> segments[1..][k] == segments[k + 1];
    var s := segments[0];
    if s.Kept? {
      RunStartAscends(segments[1..], run, n);
    } else if n > 0 {
      RunStartAscends(segments[1..], run + 1, n - 1);
    } else {
      assert RenderSegment(s, Number(run)) != [];
    }
  }

  lemma {:induction false} RunStartsAscend(segments: seq<Segment>, run: nat, n: nat, m: nat)
    requires ValidSegments(segments) && n < m < Regions(segments)
    ensures RunStart(segments, run, n) < RunStart(segments, run, m)
    decreases m
  {
    RunStartAscends(segments, run, m - 1);
    if n < m - 1 {
      RunStartsAscend(segments, run, n, m - 1);
    }
  }

  /** Once the counter has wrapped, the first run and a later one share a number with another run between them. */
  lemma NumbersRepeat(segments: seq<Segment>)
    requires ValidSegments(segments) && U32_MAX < Regions(segments)
    ensures var rows := Render(segments, 0);
            exists i, j :: 0 <= i < j < |rows| && rows[i].CodePage? && rows[j].CodePage? && rows[i].region == rows[j].region &&
                           !Chained(rows, i, j)
  {
    hide Number, Render, RunStart, Regions;
    var rows := Render(segments, 0);
    var i, k, j := RunStart(segments, 0, 0), RunStart(segments, 0, 1), RunStart(segments, 0, U32_MAX);
    RunStartNumber(segments, 0, 0);
    RunStartNumber(segments, 0, 1);
    RunStartNumber(segments, 0, U32_MAX);
    RunStartsAscend(segments, 0, 0, 1);
    RunStartsAscend(segments, 0, 1, U32_MAX);
    NumberWraps(0);
    NextNumber(0);
    if Chained(rows, i, j) {
      assert Chained(rows, i, k);
      ChainedShare(rows, i, k);
      assert false;
    }
  }

  /** Numbers tell the runs apart exactly as long as the counter has not wrapped. */
  lemma NumbersTellRunsIff(rows: seq<Row>, roots: seq<u64>)
    requires Listing(rows) && Ascending(roots)
    ensures NumbersTellRuns(rows, roots, Normalized(rows, roots)) <==> RunCount(rows, roots) <= U32_MAX
  {
    hide Items, Parse, Split, Render, Start, Joins, Listing, Chained, OneSubrun, WellNumbered, Paginated, Regions;
    var pages := Normalized(rows, roots);
    ParseValid(rows);
    SplitValid(Parse(rows), roots);
    if RunCount(rows, roots) <= U32_MAX {
      NormalizedWellNumbered(rows, roots);
      forall i, j | 0 <= i < j < |pages| && pages[i].CodePage? && pages[j].CodePage?
        ensures pages[i].region == pages[j].region <==> OneSubrun(Items(rows, false), roots, Start(pages, i), Start(pages, j))
      {
        SubrunsAreChains(rows, roots, i, j);
        if pages[i].region == pages[j].region {
          SharedChained(pages, 1, i, j);
        } else if Chained(pages, i, j) {
          ChainedShare(pages, i, j);
        }
      }
    } else {
      NumbersRepeat(Split(Parse(rows), roots));
      var i, j :| 0 <= i < j < |pages| && pages[i].CodePage? && pages[j].CodePage? && pages[i].region == pages[j].region &&
                  !Chained(pages, i, j);
      SubrunsAreChains(rows, roots, i, j);
    }
  }

  // ---------------------------------------------------------------------------
  // The loops.

  function InsertRoot(root: u64, sorted: seq<u64>): (r: seq<u64>)
    requires Ascending(sorted)
    ensures Ascending(r) && forall x :: x in r <==> x == root || x in sorted
  {
    if sorted == [] then [root]
    else if root < sorted[0] then [root] + sorted
    else if root == sorted[0] then sorted
    else
      assert Ascending(sorted[1..]);
      assert forall x :: x in sorted <==> x == sorted[0] || x in sorted[1..];
      var rest := InsertRoot(root, sorted[1..]);
      assert forall k :: 0 <= k < |rest| ==> rest[k] in rest;
      [sorted[0]] + rest
  }

  /** The roots sorted, without duplicates. */
  function SortUnique(roots: seq<u64>): (r: seq<u64>)
    ensures Ascending(r) && forall x :: x in r <==> x in roots
  {
    if roots == [] then []
    else
      assert forall x :: x in roots <==> x == roots[0] || x in roots[1..];
      InsertRoot(roots[0], SortUnique(roots[1..]))
  }

  lemma {:induction false} ListingSuffix(rows: seq<Row>, i: nat)
    requires Listing(rows) && i <= |rows|
    ensures Listing(rows[i..])
  {
    if i > 0 {
      assert forall k :: 0 <= k < |rows[1..]| ==> rows[1..][k] == rows[k + 1];
      ListingSuffix(rows[1..], i - 1);
      assert rows[1..][i - 1..] == rows[i..];
    } else {
      assert rows[0..] == rows;
    }
  }

  /** What the rows from `first` parse to once the run has grown up to `last`. */
  ghost predicate Grown(rows: seq<Row>, first: nat, last: nat, size: nat)
    requires Listing(rows) && first < last <= |rows|
  {
    ListingSuffix(rows, first);
    ListingSuffix(rows, last);
    var p, rest := rows[first], Parse(rows[last..]);
    && rows[last - 1].CodePage? && 0 < rows[last - 1].aux
    && p.CodePage? && rows[last - 1].region == p.region && rows[last - 1].section == p.section
    && rows[last - 1].addr + rows[last - 1].aux == p.addr + size && 0 < size
    && (if last < |rows| && Joins(rows[last - 1], rows[last]) then
          Parse(rows[first..]) == [Bytes(p.addr, p.section, size + rest[0].size)] + rest[1..]
        else Parse(rows[first..]) == [Bytes(p.addr, p.section, size)] + rest)
  }

  lemma GrownStart(rows: seq<Row>, first: nat)
    requires Listing(rows) && first < |rows| && rows[first].CodePage? && 0 < rows[first].aux
    ensures Grown(rows, first, first + 1, rows[first].aux)
  {
    hide Parse;
    ListingSuffix(rows, first);
    ListingSuffix(rows, first + 1);
    ItemsStep(rows[first..], false);
    assert rows[first..][1..] == rows[first + 1..];
  }

  lemma GrownStep(rows: seq<Row>, first: nat, last: nat, size: nat)
    requires Listing(rows) && first < last < |rows| && Grown(rows, first, last, size) && Joins(rows[last - 1], rows[last])
    ensures Grown(rows, first, last + 1, size + rows[last].aux)
  {
    hide Parse;
    ListingSuffix(rows, last);
    ListingSuffix(rows, last + 1);
    ItemsStep(rows[last..], false);
    assert rows[last..][1..] == rows[last + 1..];
  }

  lemma TooLong(rows: seq<Row>, first: nat, last: nat, size: nat)
    requires Listing(rows) && first < last < |rows| && Grown(rows, first, last, size) && Joins(rows[last - 1], rows[last])
    requires Listing(rows[first..]) && Short(Parse(rows[first..]))
    ensures size + rows[last].aux <= U64_MAX
  {
    hide Parse;
    ListingSuffix(rows, last);
    assert Parse(rows[first..])[0].size == size + Parse(rows[last..])[0].size;
  }

  /** Extends a run from its first page over every page that continues it. */
  method TakeRun(rows: seq<Row>, first: nat) returns (last: nat, size: u64)
    requires Listing(rows) && first < |rows| && rows[first].CodePage? && 0 < rows[first].aux
    requires Listing(rows[first..]) && Short(Parse(rows[first..]))
    ensures first < last <= |rows| && 0 < size && rows[first].addr + size <= U64_LIMIT
    ensures Listing(rows[first..]) && Listing(rows[last..])
    ensures Parse(rows[first..]) == [Bytes(rows[first].addr, rows[first].section, size)] + Parse(rows[last..])
  {
    hide Parse;
    last, size := first + 1, rows[first].aux;
    GrownStart(rows, first);
    while last < |rows| && rows[last].CodePage? && rows[last].region == rows[first].region &&
          rows[last].section == rows[first].section && rows[last].aux != 0
      invariant first < last <= |rows| && Grown(rows, first, last, size)
    {
      if CheckedAddressAdd(rows[last - 1].addr, rows[last - 1].aux) != Some(rows[last].addr) || size > U64_MAX - rows[last].aux {
        if Joins(rows[last - 1], rows[last]) {
          TooLong(rows, first, last, size);
        }
        break;
      }
      GrownStep(rows, first, last, size);
      size := size + rows[last].aux;
      last := last + 1;
    }
    ListingSuffix(rows, first);
    ListingSuffix(rows, last);
  }

  lemma InsideStep(addr: u64, size: nat, root: u64, rest: seq<u64>)
    ensures Inside(addr, size, [root] + rest) ==
            (if addr < root < addr + size then [root - addr] else []) + Inside(addr, size, rest)
    ensures Inside(addr, size, []) == []
  {
    assert ([root] + rest)[1..] == rest;
  }

  lemma {:induction false} InsideAppend(addr: u64, size: nat, a: seq<u64>, b: seq<u64>)
    ensures Inside(addr, size, a + b) == Inside(addr, size, a) + Inside(addr, size, b)
  {
    hide Inside;
    if a == [] {
      InsideStep(addr, size, 0, []);
      assert a + b == b;
    } else {
      InsideAppend(addr, size, a[1..], b);
      InsideStep(addr, size, a[0], a[1..]);
      InsideStep(addr, size, a[0], a[1..] + b);
      assert a == [a[0]] + a[1..] && a + b == [a[0]] + (a[1..] + b);
    }
  }

  method LowerBound(roots: seq<u64>, addr: u64) returns (k: nat)
    requires Ascending(roots)
    ensures k <= |roots|
    ensures forall i :: 0 <= i < k ==> roots[i] < addr
    ensures forall i :: k <= i < |roots| ==> addr <= roots[i]
  {
    var hi := |roots|;
    k := 0;
    while k < hi
      invariant k <= hi <= |roots|
      invariant forall i :: 0 <= i < k ==> roots[i] < addr
      invariant forall i :: hi <= i < |roots| ==> addr <= roots[i]
      decreases hi - k
    {
      var mid := k + (hi - k) / 2;
      if roots[mid] < addr {
        k := mid + 1;
      } else {
        hi := mid;
      }
    }
  }

  /** Offset zero, then the roots strictly inside the run; sorted roots need only one pass from the lower bound. */
  method RunBoundaries(addr: u64, size: u64, roots: seq<u64>) returns (boundaries: seq<u64>)
    requires Ascending(roots)
    ensures boundaries == [0] + Inside(addr, size, roots)
  {
    hide Inside;
    var k := LowerBound(roots, addr);
    boundaries := [0];
    NothingInside(addr, size, roots[..k]);
    while k < |roots|
      invariant k <= |roots| && boundaries == [0] + Inside(addr, size, roots[..k])
      invariant forall i :: k <= i < |roots| ==> addr <= roots[i]
      invariant boundaries[|boundaries| - 1] == 0 || (k > 0 && boundaries[|boundaries| - 1] == roots[k - 1] - addr)
    {
      var offset := roots[k] - addr;
      InsideAppend(addr, size, roots[..k], roots[k..]);
      assert roots[..k] + roots[k..] == roots;
      if offset >= size {
        NothingInside(addr, size, roots[k..]);
        return;
      }
      InsideAppend(addr, size, roots[..k], [roots[k]]);
      assert roots[..k + 1] == roots[..k] + [roots[k]];
      InsideOne(addr, size, roots[k]);
      if offset != 0 && boundaries[|boundaries| - 1] != offset {
        boundaries := boundaries + [offset];
      }
      k := k + 1;
    }
    assert roots[..k] == roots;
  }

  lemma InsideOne(addr: u64, size: nat, root: u64)
    ensures Inside(addr, size, [root]) == if addr < root < addr + size then [root - addr] else []
  {
  }

  /** Zero is reserved; the counter wraps from its largest value to one. */
  method AllocateCodeRegion(next: u32, ghost run: nat) returns (region: u32, after: u32)
    requires next == Number(run)
    ensures region == Number(run) && after == Number(run + 1)
  {
    hide Number;
    NextNumber(run);
    region := next;
    after := if next == U32_MAX then 1 else next + 1;
  }

  lemma RenderStep(s: Segment, rest: seq<Segment>, run: nat)
    requires ValidSegments([s] + rest)
    ensures ValidSegment(s) && ValidSegments(rest)
    ensures Render([s] + rest, run) == RenderSegment(s, Number(run)) + Render(rest, if s.Kept? then run else run + 1)
    ensures Regions([s] + rest) == (if s.Kept? then 0 else 1) + Regions(rest)
  {
    assert ([s] + rest)[0] == s && ([s] + rest)[1..] == rest;
    assert forall k :: 0 <= k < |rest| ==> rest[k] == ([s] + rest)[k + 1];
  }

  /** Repaginates each subrun of a run from its own start, under its own number. */
  method EmitSubruns(addr: u64, section: u32, size: u64, boundaries: seq<u64>, region: u32, ghost run: nat)
    returns (rows: seq<Row>, next: u32)
    requires 0 < size && addr + size <= U64_LIMIT
    requires boundaries != [] && boundaries[0] == 0 && Offsets(boundaries[1..], 0, size)
    requires region == Number(run)
    ensures ValidSegments(Subruns(addr, section, size, 0, boundaries[1..]))
    ensures rows == Render(Subruns(addr, section, size, 0, boundaries[1..]), run)
    ensures Regions(Subruns(addr, section, size, 0, boundaries[1..])) == |boundaries|
    ensures next == Number(run + |boundaries|)
  {
    hide Render, Regions, Pages, Number;
    var offs := boundaries[1..];
    SubrunsValid(addr, section, size, 0, offs);
    rows, next := [], region;
    ghost var all := Subruns(addr, section, size, 0, offs);
    RenderNothing(run);
    var b := 0;
    while b < |boundaries|
      invariant b <= |boundaries| && next == Number(run + b)
      invariant b < |boundaries| ==>
        && boundaries[b] < size && Offsets(boundaries[b + 1..], boundaries[b], size)
        && ValidSegments(Subruns(addr, section, size, boundaries[b], boundaries[b + 1..]))
        && Render(all, run) == rows + Render(Subruns(addr, section, size, boundaries[b], boundaries[b + 1..]), run + b)
        && Regions(all) == b + Regions(Subruns(addr, section, size, boundaries[b], boundaries[b + 1..]))
      invariant b == |boundaries| ==> Render(all, run) == rows && Regions(all) == b
      decreases |boundaries| - b
    {
      var begin := boundaries[b];
      var end := if b + 1 < |boundaries| then boundaries[b + 1] else size;
      ghost var runs := Subruns(addr, section, size, begin, boundaries[b + 1..]);
      assert runs[0] == Bytes(addr + begin, section, end - begin);
      assert runs == [runs[0]] + runs[1..];
      RenderStep(runs[0], runs[1..], run + b);
      var codeRegion;
      codeRegion, next := AllocateCodeRegion(next, run + b);
      var pages := EmitPages(addr, section, begin, end, codeRegion);
      rows := rows + pages;
      if b + 1 < |boundaries| {
        assert boundaries[b + 1..][1..] == boundaries[b + 2..];
      } else {
        assert runs[1..] == [];
        RenderNothing(run + b + 1);
      }
      b := b + 1;
    }
  }

  lemma RenderNothing(run: nat)
    ensures Render([], run) == [] && Regions([]) == 0
  {
  }

  method EmitPages(addr: u64, section: u32, begin: nat, end: nat, region: u32) returns (pages: seq<Row>)
    requires begin < end && addr + end <= U64_LIMIT
    ensures pages == Pages(addr + begin, section, end - begin, region)
  {
    hide Pages;
    pages := [];
    var offset := begin;
    while offset < end
      invariant begin <= offset <= end
      invariant offset < end ==> Pages(addr + begin, section, end - begin, region) ==
                                 pages + Pages(addr + offset, section, end - offset, region)
      invariant offset == end ==> Pages(addr + begin, section, end - begin, region) == pages
      decreases end - offset
    {
      var pageBytes := Min(CODE_PAGE_BYTES, end - offset);
      PagesStep(addr + offset, section, end - offset, region);
      pages := pages + [CodePage(addr + offset, section, pageBytes, region)];
      offset := offset + pageBytes;
    }
  }

  lemma SplitStep(s: Segment, rest: seq<Segment>, roots: seq<u64>)
    requires ValidSegments([s] + rest) && Ascending(roots)
    ensures ValidSegment(s) && ValidSegments(rest)
    ensures Split([s] + rest, roots) == SplitSegment(s, roots) + Split(rest, roots)
  {
    assert ([s] + rest)[0] == s && ([s] + rest)[1..] == rest;
    assert forall k :: 0 <= k < |rest| ==> rest[k] == ([s] + rest)[k + 1];
  }

  lemma {:induction false} RenderAppend(a: seq<Segment>, b: seq<Segment>, run: nat)
    requires ValidSegments(a) && ValidSegments(b)
    ensures ValidSegments(a + b) && Render(a + b, run) == Render(a, run) + Render(b, run + Regions(a))
    ensures Regions(a + b) == Regions(a) + Regions(b)
    decreases |a|
  {
    hide Render, Regions, RenderSegment;
    if a == [] {
      assert a + b == b;
      RenderNothing(run);
    } else {
      var rest := a[1..];
      assert a == [a[0]] + rest && a + b == [a[0]] + (rest + b);
      assert forall k :: 0 <= k < |rest| ==> rest[k] == a[k + 1];
      RenderAppend(rest, b, if a[0].Kept? then run else run + 1);
      RenderStep(a[0], rest, run);
      RenderStep(a[0], rest + b, run);
    }
  }

  /** The rows still to come from `first` on, the first run among them being the `run`-th. */
  ghost function Remaining(rows: seq<Row>, roots: seq<u64>, first: nat, run: nat): seq<Row>
    requires Listing(rows) && Ascending(roots) && first <= |rows|
  {
    ListingSuffix(rows, first);
    ParseValid(rows[first..]);
    SplitValid(Parse(rows[first..]), roots);
    Render(Split(Parse(rows[first..]), roots), run)
  }

  /** A segment at the front of what remains is rendered before the rest. */
  lemma RemainingStep(rows: seq<Row>, roots: seq<u64>, first: nat, s: Segment, last: nat, run: nat)
    requires Listing(rows) && Ascending(roots) && first < last <= |rows|
    requires Listing(rows[first..]) && Listing(rows[last..])
    requires Parse(rows[first..]) == [s] + Parse(rows[last..])
    ensures ValidSegment(s) && ValidSegments(SplitSegment(s, roots))
    ensures Remaining(rows, roots, first, run) ==
            Render(SplitSegment(s, roots), run) + Remaining(rows, roots, last, run + Regions(SplitSegment(s, roots)))
  {
    hide Parse, Split, SplitSegment, Render, Regions, Listing;
    var rest := Parse(rows[last..]);
    ParseValid(rows[first..]);
    ParseValid(rows[last..]);
    SplitStep(s, rest, roots);
    SplitValid(rest, roots);
    SplitOneItems(s, roots);
    RenderAppend(SplitSegment(s, roots), Split(rest, roots), run);
  }

  lemma RemainingSingle(rows: seq<Row>, first: nat)
    requires Listing(rows) && first < |rows| && !SegmentOf(rows[first]).Bytes?
    ensures Listing(rows[first..]) && Listing(rows[first + 1..])
    ensures Parse(rows[first..]) == [SegmentOf(rows[first])] + Parse(rows[first + 1..])
  {
    hide Parse;
    ListingSuffix(rows, first);
    ListingSuffix(rows, first + 1);
    ItemsStep(rows[first..], false);
    assert rows[first..][1..] == rows[first + 1..];
  }

  lemma SingleRender(s: Segment, roots: seq<u64>, run: nat)
    requires ValidSegment(s) && Ascending(roots) && !s.Bytes?
    ensures ValidSegments([s]) && SplitSegment(s, roots) == [s]
    ensures Render([s], run) == RenderSegment(s, Number(run)) && Regions([s]) == if s.Kept? then 0 else 1
  {
    assert [s][1..] == [];
    assert RenderSegment(s, Number(run)) + [] == RenderSegment(s, Number(run));
  }

  lemma {:induction false} SubrunsRegions(addr: u64, section: u32, size: nat, from: nat, offsets: seq<u64>)
    requires from < size && addr + size <= U64_LIMIT && Offsets(offsets, from, size)
    ensures Regions(Subruns(addr, section, size, from, offsets)) == |offsets| + 1
    decreases |offsets|
  {
    if offsets == [] {
      assert Subruns(addr, section, size, from, offsets)[1..] == [];
    } else {
      SubrunsRegions(addr, section, size, offsets[0], offsets[1..]);
      assert Subruns(addr, section, size, from, offsets)[1..] == Subruns(addr, section, size, offsets[0], offsets[1..]);
    }
  }

  /** Takes the run that starts at `first`, cuts it at the roots and repaginates its parts. */
  method RecutRun(rows: seq<Row>, roots: seq<u64>, first: nat, next: u32, ghost run: nat)
    returns (pages: seq<Row>, last: nat, after: u32, ghost runs: nat)
    requires Listing(rows) && Ascending(roots) && first < |rows| && rows[first].CodePage? && 0 < rows[first].aux
    requires Listing(rows[first..]) && Short(Parse(rows[first..])) && next == Number(run)
    ensures first < last <= |rows| && Listing(rows[last..]) && Short(Parse(rows[last..])) && after == Number(runs)
    ensures Remaining(rows, roots, first, run) == pages + Remaining(rows, roots, last, runs)
  {
    hide Parse, Split, SplitSegment, Render, Regions, Remaining, Subruns, Inside, Offsets, Number, Short, Ascending, ValidSegments;
    var row := rows[first];
    var size;
    last, size := TakeRun(rows, first);
    var bytes := Bytes(row.addr, row.section, size);
    RemainingStep(rows, roots, first, bytes, last, run);
    SplitRun(bytes, roots);
    ShortRest(bytes, Parse(rows[last..]));
    var boundaries := RunBoundaries(row.addr, size, roots);
    assert boundaries[1..] == Inside(row.addr, size, roots);
    pages, after := EmitSubruns(row.addr, row.section, size, boundaries, next, run);
    runs := run + |boundaries|;
  }

  /** Takes an empty page, under a number of its own, or a row that is no page. */
  method KeepRow(rows: seq<Row>, roots: seq<u64>, first: nat, next: u32, ghost run: nat)
    returns (row: Row, after: u32, ghost runs: nat)
    requires Listing(rows) && Ascending(roots) && first < |rows| && !(rows[first].CodePage? && rows[first].aux != 0)
    requires Listing(rows[first..]) && Short(Parse(rows[first..])) && next == Number(run)
    ensures Listing(rows[first + 1..]) && Short(Parse(rows[first + 1..])) && after == Number(runs)
    ensures Remaining(rows, roots, first, run) == [row] + Remaining(rows, roots, first + 1, runs)
  {
    hide Parse, Split, SplitSegment, Render, Regions, Remaining, Number, Short, Ascending, ValidSegments;
    row, after, runs := rows[first], next, run;
    RemainingSingle(rows, first);
    RemainingStep(rows, roots, first, SegmentOf(row), first + 1, run);
    SingleRender(SegmentOf(row), roots, run);
    ShortRest(SegmentOf(row), Parse(rows[first + 1..]));
    if row.CodePage? {
      var region;
      region, after := AllocateCodeRegion(next, run);
      runs := run + 1;
      row := row.(region := region);
    }
  }

  /** One pass over the rows computes the normalised listing. */
  method NormalizeListingCodePagesAtRoots(rows: seq<Row>, authoritativeRoots: seq<u64>) returns (normalized: seq<Row>)
    requires Listing(rows) && Short(Parse(rows))
    ensures normalized == Normalized(rows, SortUnique(authoritativeRoots))
  {
    hide Parse, Split, SplitSegment, Render, Regions, Remaining, SortUnique, Number, Short, Normalized, Ascending, ValidSegments;
    var roots := SortUnique(authoritativeRoots);
    normalized := [];
    var next: u32 := 1;
    ghost var run: nat := 0;
    FirstNumber();
    var first := 0;
    NormalizedIsRemaining(rows, roots);
    ListingSuffix(rows, 0);
    assert rows[0..] == rows;
    while first < |rows|
      invariant first <= |rows| && next == Number(run)
      invariant Listing(rows[first..]) && Short(Parse(rows[first..]))
      invariant Normalized(rows, roots) == normalized + Remaining(rows, roots, first, run)
      decreases |rows| - first
    {
      var row := rows[first];
      if row.CodePage? && row.aux != 0 {
        var pages;
        pages, first, next, run := RecutRun(rows, roots, first, next, run);
        normalized := normalized + pages;
      } else {
        row, next, run := KeepRow(rows, roots, first, next, run);
        normalized := normalized + [row];
        first := first + 1;
      }
    }
    RemainingNothing(rows, roots, run);
  }

  lemma FirstNumber()
    ensures Number(0) == 1
  {
  }

  lemma ShortRest(s: Segment, rest: seq<Segment>)
    requires Short([s] + rest)
    ensures Short(rest)
  {
    assert forall k :: 0 <= k < |rest| ==> rest[k] == ([s] + rest)[k + 1];
  }

  lemma SplitRun(run: Segment, roots: seq<u64>)
    requires run.Bytes? && ValidSegment(run) && Ascending(roots)
    ensures Offsets(Inside(run.addr, run.size, roots), 0, run.size)
    ensures SplitSegment(run, roots) == Subruns(run.addr, run.section, run.size, 0, Inside(run.addr, run.size, roots))
    ensures Regions(SplitSegment(run, roots)) == |Inside(run.addr, run.size, roots)| + 1
  {
    InsideOffsets(run.addr, run.size, roots, 0);
    SubrunsRegions(run.addr, run.section, run.size, 0, Inside(run.addr, run.size, roots));
  }

  lemma NormalizedIsRemaining(rows: seq<Row>, roots: seq<u64>)
    requires Listing(rows) && Ascending(roots)
    ensures Normalized(rows, roots) == Remaining(rows, roots, 0, 0)
  {
    hide Parse, Split, Render;
    assert rows[0..] == rows;
  }

  lemma RemainingNothing(rows: seq<Row>, roots: seq<u64>, run: nat)
    requires Listing(rows) && Ascending(roots)
    ensures Remaining(rows, roots, |rows|, run) == []
  {
    assert rows[|rows|..] == [];
  }
}
