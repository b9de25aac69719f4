/** The rows of a listing: lazy code pages, typed data directives and string rows. */
module ListingRows {
  import opened Machine
  import opened CodeData
  import CodeDataOverrides

  const DATA_BYTES_PER_REGION: nat := 0x10_0000
  const DIRECTIVE_BYTES: nat := 16

  datatype Row =
    | Header(addr: u64, section: u32, folded: bool, mapped: u64)
    | CodePage(addr: u64, section: u32, size: u64, region: nat)
    | Directive(addr: u64, section: u32, size: u64, kind: Kind, width: u8)
    | Truncated(addr: u64, section: u32, size: u64, kind: Kind, width: u8)
    | StringRow(addr: u64, section: u32, index: nat)
  {
    /** Pages, directives and omissions account for bytes; headers and strings point at them. */
    predicate HoldsBytes() {
      CodePage? || Directive? || Truncated?
    }

    function Size(): nat {
      if HoldsBytes() then size else 0
    }
  }

  datatype Region = Region(section: u32, peHeader: bool, executable: bool, folded: bool, address: u64, mapped: u64)
  {
    function End(): nat {
      address + mapped
    }
  }

  datatype StringRef = StringRef(address: u64, index: nat)

  datatype Source = Source(spans: seq<Span>, strings: seq<StringRef>)

  // ---------------------------------------------------------------------------
  // The rows of one stretch.

  /** What an executable byte is listed as. */
  ghost function KindAt(spans: seq<Span>, a: int): Kind {
    if At(spans, a).Some? then At(spans, a).value.kind else Unknown
  }

  ghost function WidthAt(spans: seq<Span>, a: int): u8 {
    if At(spans, a).Some? then At(spans, a).value.elementWidth else 1
  }

  ghost function Pages(addr: nat, size: nat, section: u32, region: nat): seq<Row>
    requires addr + size <= U64_LIMIT
    decreases size
  {
    if size == 0 then []
    else
      var n := Min(CODE_PAGE_BYTES, size);
      [CodePage(addr, section, n, region)] + Pages(addr + n, size - n, section, region)
  }

  /** The bytes and the element width of the next directive. */
  function Shape(requested: u8, remaining: nat): (shape: (nat, u8))
    requires 0 < remaining
    ensures 1 <= shape.0 <= Min(16, remaining)
    ensures shape.1 == 1 || (shape.1 == requested && requested in {2, 4, 8})
    ensures shape.0 % shape.1 == 0
    ensures shape.1 == 1 && requested in {2, 4, 8} ==> remaining < requested
    ensures shape.1 == 1 ==> shape.0 == Min(16, remaining)
    ensures shape.1 > 1 ==> Min(16, remaining) < shape.0 + shape.1
  {
    var chunk := Min(DIRECTIVE_BYTES, remaining);
    if requested !in {2, 4, 8} || chunk - chunk % requested == 0 then (chunk, 1)
    else (chunk - chunk % requested, requested)
  }

  ghost function Directives(addr: nat, size: nat, section: u32, kind: Kind, width: u8): seq<Row>
    requires addr + size <= U64_LIMIT
    decreases size
  {
    if size == 0 then []
    else
      var shape := Shape(width, size);
      [Directive(addr, section, shape.0, kind, shape.1)]
      + Directives(addr + shape.0, size - shape.0, section, kind, width)
  }

  /** The first `shown` bytes as directives, the others as one omission. */
  ghost function DataRows(addr: nat, size: nat, shown: nat, section: u32, kind: Kind, width: u8): seq<Row>
    requires shown <= size <= U64_MAX && addr + size <= U64_LIMIT
  {
    Directives(addr, shown, section, kind, width)
    + (if shown < size then [Truncated(addr + shown, section, size - shown, kind, width)] else [])
  }

  ghost function StringRows(strings: seq<StringRef>, begin: nat, size: nat, section: u32): seq<Row> {
    if strings == [] then []
    else
      (if begin <= strings[0].address < begin + size then [StringRow(strings[0].address, section, strings[0].index)] else [])
      + StringRows(strings[1..], begin, size, section)
  }

  /** As much of a stretch as both budgets allow. */
  function Shown(size: nat, regionBudget: nat, budget: nat): (shown: nat)
    ensures shown <= size && shown <= regionBudget && shown <= budget
    ensures shown == size || shown == regionBudget || shown == budget
  {
    Min(size, Min(regionBudget, budget))
  }

  // ---------------------------------------------------------------------------
  // The rows of one region.

  ghost predicate Fitting(src: Source, region: Region, at: nat) {
    && Partition(src.spans, 0)
    && region.address <= at <= region.End() <= U64_LIMIT
  }

  /**
    The rows of an executable region from `at` on: stretch by stretch, with the two data budgets, the
    number of the next code region, and whether the stretch before was code.
   */
  ghost function Content(src: Source, region: Region, at: nat, regionBudget: nat, budget: nat, next: nat, inCode: bool): seq<Row>
    requires Fitting(src, region, at) && (inCode ==> 0 < next)
    decreases region.End() - at
  {
    if at == region.End() then []
    else
      StretchUniform(src.spans, 0, at, region.End());
      var e := StretchEnd(src.spans, at, region.End());
      var kind := KindAt(src.spans, at);
      if IsData(kind) then
        var shown := Shown(e - at, regionBudget, budget);
        DataRows(at, e - at, shown, region.section, kind, WidthAt(src.spans, at))
        + (if kind == Kind.String && !region.peHeader then StringRows(src.strings, at, e - at, region.section) else [])
        + Content(src, region, e, regionBudget - shown, budget - shown, next, false)
      else
        Pages(at, e - at, region.section, if inCode then next - 1 else next)
        + Content(src, region, e, regionBudget, budget, if inCode then next else next + 1, true)
  }

  /** The global budget and the next code region number behind those rows. */
  ghost function Behind(src: Source, region: Region, at: nat, regionBudget: nat, budget: nat, next: nat, inCode: bool): (nat, nat)
    requires Fitting(src, region, at) && (inCode ==> 0 < next)
    decreases region.End() - at
  {
    if at == region.End() then (budget, next)
    else
      StretchUniform(src.spans, 0, at, region.End());
      var e := StretchEnd(src.spans, at, region.End());
      if IsData(KindAt(src.spans, at)) then
        var shown := Shown(e - at, regionBudget, budget);
        Behind(src, region, e, regionBudget - shown, budget - shown, next, false)
      else
        Behind(src, region, e, regionBudget, budget, if inCode then next else next + 1, true)
  }

  ghost function RegionContent(src: Source, region: Region, budget: nat, next: nat): seq<Row>
    requires Fitting(src, region, region.address)
  {
    var regionBudget := Min(region.mapped, DATA_BYTES_PER_REGION);
    if region.executable then Content(src, region, region.address, regionBudget, budget, next, false)
    else
      DataRows(region.address, region.mapped, Shown(region.mapped, regionBudget, budget), region.section, Kind.Data, 1)
      + (if region.peHeader then [] else StringRows(src.strings, region.address, region.mapped, region.section))
  }

  ghost function RegionBehind(src: Source, region: Region, budget: nat, next: nat): (nat, nat)
    requires Fitting(src, region, region.address)
  {
    var regionBudget := Min(region.mapped, DATA_BYTES_PER_REGION);
    if region.executable then Behind(src, region, region.address, regionBudget, budget, next, false)
    else (budget - Shown(region.mapped, regionBudget, budget), next)
  }

  // ---------------------------------------------------------------------------
  // The order of rows.

  /** Rows at one address: strings, then directives, omissions and pages. */
  function Rank(row: Row): nat {
    match row
    case StringRow(_, _, _) => 0
    case Header(_, _, _, _) => 1
    case Directive(_, _, _, _, _) => 2
    case Truncated(_, _, _, _, _) => 3
    case CodePage(_, _, _, _) => 4
  }

  predicate Before(x: Row, y: Row) {
    x.addr < y.addr || (x.addr == y.addr && Rank(x) < Rank(y))
  }

  /** Puts a row that came earlier in front of the rows it does not have to follow. */
  function Insert(row: Row, sorted: seq<Row>): seq<Row> {
    if sorted == [] || !Before(sorted[0], row) then [row] + sorted else [sorted[0]] + Insert(row, sorted[1..])
  }

  function StableSort(rows: seq<Row>): seq<Row> {
    if rows == [] then [] else Insert(rows[0], StableSort(rows[1..]))
  }

  function InsertRef(r: StringRef, sorted: seq<StringRef>): seq<StringRef> {
    if sorted == [] || r.address <= sorted[0].address then [r] + sorted else [sorted[0]] + InsertRef(r, sorted[1..])
  }

  /** The strings by ascending address. */
  function ByAddress(addresses: seq<u64>, from: nat): seq<StringRef>
    requires from <= |addresses|
    decreases |addresses| - from
  {
    if from == |addresses| then [] else InsertRef(StringRef(addresses[from], from), ByAddress(addresses, from + 1))
  }

  // ---------------------------------------------------------------------------
  // All regions.

  ghost predicate FittingAll(src: Source, regions: seq<Region>) {
    && Partition(src.spans, 0)
    && forall k :: 0 <= k < |regions| ==> regions[k].End() <= U64_LIMIT
  }

  /** Headers for all regions, contents for the unfolded ones. */
  ghost function AllRows(src: Source, regions: seq<Region>, budget: nat, next: nat): seq<Row>
    requires FittingAll(src, regions)
  {
    if regions == [] then []
    else
      var region := regions[0];
      assert forall k :: 0 <= k < |regions[1..]| ==> regions[1..][k] == regions[k + 1];
      [Header(region.address, region.section, region.folded, region.mapped)]
      + if region.folded then AllRows(src, regions[1..], budget, next)
        else
          StableSort(RegionContent(src, region, budget, next))
          + AllRows(src, regions[1..], RegionBehind(src, region, budget, next).0, RegionBehind(src, region, budget, next).1)
  }

  // ---------------------------------------------------------------------------
  // Building.

  /** Cuts a code stretch into pages from its own start. */
  method AppendPages(content: seq<Row>, address: nat, size: nat, section: u32, codeRegion: nat) returns (rows: seq<Row>)
    requires address + size <= U64_LIMIT
    ensures rows == content + Pages(address, size, section, codeRegion)
  {
    hide Pages;
    rows := content;
    PagesStep(address, size, section, codeRegion);
    var local := 0;
    while local < size
      invariant local <= size
      invariant rows + Pages(address + local, size - local, section, codeRegion) == content + Pages(address, size, section, codeRegion)
    {
      PagesStep(address + local, size - local, section, codeRegion);
      var n := Min(CODE_PAGE_BYTES, size - local);
      var page := CodePage(address + local, section, n, codeRegion);
      Associate(rows, [page], Pages(address + local + n, size - local - n, section, codeRegion));
      rows := rows + [page];
      local := local + n;
    }
    PagesStep(address + size, 0, section, codeRegion);
  }

  lemma PagesStep(addr: nat, size: nat, section: u32, region: nat)
    requires addr + size <= U64_LIMIT
    ensures size == 0 ==> Pages(addr, size, section, region) == []
    ensures size > 0 ==>
      var n := Min(CODE_PAGE_BYTES, size);
      Pages(addr, size, section, region) == [CodePage(addr, section, n, region)] + Pages(addr + n, size - n, section, region)
  {
  }

  lemma DirectivesStep(addr: nat, size: nat, section: u32, kind: Kind, width: u8)
    requires addr + size <= U64_LIMIT
    ensures size == 0 ==> Directives(addr, size, section, kind, width) == []
    ensures size > 0 ==>
      var n := Shape(width, size).0;
      Directives(addr, size, section, kind, width) ==
      [Directive(addr, section, n, kind, Shape(width, size).1)] + Directives(addr + n, size - n, section, kind, width)
  {
  }

  /** Directives of at most sixteen bytes, whole elements as long as one fits. */
  method AppendDirectives(content: seq<Row>, begin: nat, shown: nat, section: u32, kind: Kind, requested: u8) returns (rows: seq<Row>)
    requires begin + shown <= U64_LIMIT
    ensures rows == content + Directives(begin, shown, section, kind, requested)
  {
    hide Directives, Shape;
    rows := content;
    DirectivesStep(begin, shown, section, kind, requested);
    var off := 0;
    while off < shown
      invariant off <= shown
      invariant rows + Directives(begin + off, shown - off, section, kind, requested) ==
                content + Directives(begin, shown, section, kind, requested)
    {
      DirectivesStep(begin + off, shown - off, section, kind, requested);
      var chunk, width := NextShape(requested, shown - off);
      var row := Directive(begin + off, section, chunk, kind, width);
      Associate(rows, [row], Directives(begin + off + chunk, shown - off - chunk, section, kind, requested));
      rows := rows + [row];
      off := off + chunk;
    }
    DirectivesStep(begin + shown, 0, section, kind, requested);
  }

  method NextShape(requested: u8, remaining: nat) returns (chunk: nat, width: u8)
    requires 0 < remaining
    ensures (chunk, width) == Shape(requested, remaining)
  {
    width := if requested == 2 || requested == 4 || requested == 8 then requested else 1;
    chunk := Min(DIRECTIVE_BYTES, remaining);
    if width > 1 {
      chunk := chunk - chunk % width;
      if chunk == 0 {
        width := 1;
        chunk := Min(DIRECTIVE_BYTES, remaining);
      }
    }
  }

  method AppendData(content: seq<Row>, begin: nat, size: nat, shown: nat, section: u32, kind: Kind, requested: u8) returns (rows: seq<Row>)
    requires shown <= size <= U64_MAX && begin + size <= U64_LIMIT
    ensures rows == content + DataRows(begin, size, shown, section, kind, requested)
  {
    hide Directives;
    rows := AppendDirectives(content, begin, shown, section, kind, requested);
    if shown < size {
      rows := rows + [Truncated(begin + shown, section, size - shown, kind, requested)];
    }
  }

  ghost predicate Ordered(strings: seq<StringRef>) {
    forall j, k :: 0 <= j < k < |strings| ==> strings[j].address <= strings[k].address
  }

  /** Searches the first string of the stretch and stops at the first one behind it. */
  method AppendStrings(content: seq<Row>, strings: seq<StringRef>, begin: nat, size: nat, section: u32) returns (rows: seq<Row>)
    requires Ordered(strings)
    ensures rows == content + StringRows(strings, begin, size, section)
  {
    hide StringRows;
    rows := content;
    var first := FirstString(strings, begin);
    NoStringsAhead(strings, 0, first, begin, size, section);
    for i := first to |strings|
      invariant rows + StringRows(strings[i..], begin, size, section) == content + StringRows(strings, begin, size, section)
    {
      var address := strings[i].address;
      if address < begin || address - begin >= size {
        NoStringsAhead(strings, i, |strings|, begin, size, section);
        return;
      }
      StringsStep(strings, i, begin, size, section);
      var row := StringRow(address, section, strings[i].index);
      Associate(rows, [row], StringRows(strings[i + 1..], begin, size, section));
      rows := rows + [row];
    }
    NoStringsAhead(strings, |strings|, |strings|, begin, size, section);
  }

  method FirstString(strings: seq<StringRef>, begin: nat) returns (k: nat)
    requires Ordered(strings)
    ensures k <= |strings|
    ensures forall i :: 0 <= i < k ==> strings[i].address < begin
    ensures forall i :: k <= i < |strings| ==> begin <= strings[i].address
  {
    var hi := |strings|;
    k := 0;
    while k < hi
      invariant k <= hi <= |strings|
      invariant forall i :: 0 <= i < k ==> strings[i].address < begin
      invariant forall i :: hi <= i < |strings| ==> begin <= strings[i].address
    {
      var mid := k + (hi - k) / 2;
      if strings[mid].address < begin {
        k := mid + 1;
      } else {
        hi := mid;
      }
    }
  }

  lemma StringsStep(strings: seq<StringRef>, i: nat, begin: nat, size: nat, section: u32)
    requires i < |strings|
    ensures StringRows(strings[i..], begin, size, section) ==
            (if begin <= strings[i].address < begin + size then [StringRow(strings[i].address, section, strings[i].index)] else [])
            + StringRows(strings[i + 1..], begin, size, section)
  {
    assert strings[i..][1..] == strings[i + 1..];
  }

  lemma {:induction false} NoStringsAhead(strings: seq<StringRef>, i: nat, j: nat, begin: nat, size: nat, section: u32)
    requires i <= j <= |strings|
    requires forall k :: i <= k < j ==> !(begin <= strings[k].address < begin + size)
    ensures StringRows(strings[i..], begin, size, section) == StringRows(strings[j..], begin, size, section)
    ensures j == |strings| ==> StringRows(strings[j..], begin, size, section) == []
    ensures strings[0..] == strings
    decreases j - i
  {
    if i < j {
      StringsStep(strings, i, begin, size, section);
      NoStringsAhead(strings, i + 1, j, begin, size, section);
    }
  }

  lemma ContentStep(src: Source, region: Region, at: nat, regionBudget: nat, budget: nat, next: nat, inCode: bool)
    requires Fitting(src, region, at) && (inCode ==> 0 < next)
    ensures at == region.End() ==>
      Content(src, region, at, regionBudget, budget, next, inCode) == [] &&
      Behind(src, region, at, regionBudget, budget, next, inCode) == (budget, next)
    ensures at < region.End() ==>
      var e := StretchEnd(src.spans, at, region.End());
      && at < e <= region.End()
      && var kind := KindAt(src.spans, at);
      if IsData(kind) then
        var shown := Shown(e - at, regionBudget, budget);
        && Content(src, region, at, regionBudget, budget, next, inCode) ==
           (DataRows(at, e - at, shown, region.section, kind, WidthAt(src.spans, at))
            + (if kind == Kind.String && !region.peHeader then StringRows(src.strings, at, e - at, region.section) else []))
           + Content(src, region, e, regionBudget - shown, budget - shown, next, false)
        && Behind(src, region, at, regionBudget, budget, next, inCode) ==
           Behind(src, region, e, regionBudget - shown, budget - shown, next, false)
      else
        && Content(src, region, at, regionBudget, budget, next, inCode) ==
           Pages(at, e - at, region.section, if inCode then next - 1 else next)
           + Content(src, region, e, regionBudget, budget, if inCode then next else next + 1, true)
        && Behind(src, region, at, regionBudget, budget, next, inCode) ==
           Behind(src, region, e, regionBudget, budget, if inCode then next else next + 1, true)
  {
    hide Partition, Pages, DataRows, StringRows, StretchEnd, KindAt, At, WidthAt, IsData, Shown;
    if at < region.End() {
      StretchUniform(src.spans, 0, at, region.End());
    }
  }

  /** Data bytes of one stretch, up to what both budgets allow. */
  method AppendStretch(content: seq<Row>, src: Source, region: Region, at: nat, count: nat, kind: Kind, width: u8,
                       shown: nat, includeStrings: bool)
    returns (rows: seq<Row>)
    requires Ordered(src.strings) && 0 < count <= U64_MAX && at + count <= U64_LIMIT && shown <= count
    ensures rows == content + (DataRows(at, count, shown, region.section, kind, width)
                               + (if includeStrings && !region.peHeader then StringRows(src.strings, at, count, region.section) else []))
  {
    hide DataRows, StringRows, Ordered;
    var data := DataRowsOf(at, count, shown, region.section, kind, width);
    rows := content + data;
    if includeStrings && !region.peHeader {
      rows := AppendStrings(rows, src.strings, at, count, region.section);
      Associate(content, data, StringRows(src.strings, at, count, region.section));
    }
  }

  method DataRowsOf(at: nat, count: nat, shown: nat, section: u32, kind: Kind, width: u8) returns (rows: seq<Row>)
    requires shown <= count <= U64_MAX && at + count <= U64_LIMIT
    ensures rows == DataRows(at, count, shown, section, kind, width)
  {
    hide DataRows;
    rows := AppendData([], at, count, shown, section, kind, width);
  }

  /** Walks an executable region stretch by stretch. */
  method BuildExecutable(src: Source, region: Region, dataBudget: nat, nextCodeRegion: nat)
    returns (content: seq<Row>, budget: nat, next: nat)
    requires Fitting(src, region, region.address) && Ordered(src.strings)
    ensures var regionBudget := Min(region.mapped, DATA_BYTES_PER_REGION);
            && content == Content(src, region, region.address, regionBudget, dataBudget, nextCodeRegion, false)
            && (budget, next) == Behind(src, region, region.address, regionBudget, dataBudget, nextCodeRegion, false)
  {
    hide Partition, At, StretchEnd, Content, Behind, DataRows, StringRows, Pages, Ordered, Shape, Shown;
    var regionBudget: nat := Min(region.mapped, DATA_BYTES_PER_REGION);
    ghost var all := Content(src, region, region.address, regionBudget, dataBudget, nextCodeRegion, false);
    ghost var end := Behind(src, region, region.address, regionBudget, dataBudget, nextCodeRegion, false);
    content, budget, next := [], dataBudget, nextCodeRegion;
    var off, previousWasCode, codeRegion := 0, false, 0;
    while off < region.mapped
      invariant 0 <= off <= region.mapped
      invariant previousWasCode ==> 0 < next && codeRegion == next - 1
      invariant all == content + Content(src, region, region.address + off, regionBudget, budget, next, previousWasCode)
      invariant end == Behind(src, region, region.address + off, regionBudget, budget, next, previousWasCode)
    {
      var address := region.address + off;
      ContentStep(src, region, address, regionBudget, budget, next, previousWasCode);
      var count, says := StretchAt(src.spans, address, region.mapped - off);
      var kind := if says.Some? then says.value.kind else Unknown;
      var width := if says.Some? then says.value.elementWidth else 1;
      ghost var before := content;
      if kind == Code || kind == Unknown {
        if !previousWasCode {
          codeRegion := next;
          next := next + 1;
        }
        content := AppendPages(content, address, count, region.section, codeRegion);
        previousWasCode := true;
        Associate(before, Pages(address, count, region.section, codeRegion),
                  Content(src, region, address + count, regionBudget, budget, next, true));
      } else {
        var shown := Shown(count, regionBudget, budget);
        content := AppendStretch(content, src, region, address, count, kind, width, shown, kind == Kind.String);
        regionBudget, budget := regionBudget - shown, budget - shown;
        previousWasCode := false;
        Associate(before, DataRows(address, count, shown, region.section, kind, width)
                          + (if kind == Kind.String && !region.peHeader then StringRows(src.strings, address, count, region.section) else []),
                  Content(src, region, address + count, regionBudget, budget, next, false));
      }
      off := off + count;
    }
    ContentStep(src, region, region.End(), regionBudget, budget, next, previousWasCode);
  }

  method BuildRegion(src: Source, region: Region, dataBudget: nat, nextCodeRegion: nat)
    returns (content: seq<Row>, budget: nat, next: nat)
    requires Fitting(src, region, region.address) && Ordered(src.strings)
    ensures content == RegionContent(src, region, dataBudget, nextCodeRegion)
    ensures (budget, next) == RegionBehind(src, region, dataBudget, nextCodeRegion)
  {
    hide Partition, Content, Behind, DataRows, StringRows, Ordered;
    if region.executable {
      content, budget, next := BuildExecutable(src, region, dataBudget, nextCodeRegion);
    } else if region.mapped == 0 {
      NoData(src, region);
      content, budget, next := [], dataBudget, nextCodeRegion;
    } else {
      var shown := Shown(region.mapped, Min(region.mapped, DATA_BYTES_PER_REGION), dataBudget);
      content := AppendStretch([], src, region, region.address, region.mapped, Kind.Data, 1, shown, true);
      budget, next := dataBudget - shown, nextCodeRegion;
    }
  }

  lemma NoData(src: Source, region: Region)
    requires Fitting(src, region, region.address) && region.mapped == 0
    ensures DataRows(region.address, 0, 0, region.section, Kind.Data, 1) == []
    ensures StringRows(src.strings, region.address, 0, region.section) == []
  {
    NoStringsAhead(src.strings, 0, |src.strings|, region.address, 0, region.section);
  }

  /** The map applies when it was made for this image, or is synthetic. */
  function CurrentSpans(codeData: Option<CodeDataOverrides.CodeDataMap>, imageRevision: u64): seq<Span> {
    if codeData.Some? && (codeData.value.imageRevision == 0 || codeData.value.imageRevision == imageRevision)
    then codeData.value.spans else []
  }

  method BuildListingRows(regions: seq<Region>, strings: seq<u64>, imageRevision: u64, maxDataBytes: nat,
                          codeData: Option<CodeDataOverrides.CodeDataMap>)
    returns (rows: seq<Row>)
    requires FittingAll(Source(CurrentSpans(codeData, imageRevision), []), regions)
    ensures rows == AllRows(Source(CurrentSpans(codeData, imageRevision), ByAddress(strings, 0)), regions, maxDataBytes, 1)
    ensures codeData.Some? && (codeData.value.imageRevision == 0 || codeData.value.imageRevision == imageRevision) ==>
              rows == AllRows(Source(codeData.value.spans, ByAddress(strings, 0)), regions, maxDataBytes, 1)
    ensures codeData.None? || (codeData.value.imageRevision != 0 && codeData.value.imageRevision != imageRevision) ==>
              rows == AllRows(Source([], ByAddress(strings, 0)), regions, maxDataBytes, 1)
  {
    hide Partition, RegionContent, RegionBehind, StableSort, Ordered, ByAddress, AllRows;
    var src := Source(CurrentSpans(codeData, imageRevision), ByAddress(strings, 0));
    ByAddressOrdered(strings, 0);
    rows := [];
    var dataBudget, nextCodeRegion := maxDataBytes, 1;
    for i := 0 to |regions|
      invariant forall k :: 0 <= k < |regions[i..]| ==> regions[i..][k] == regions[i + k]
      invariant AllRows(src, regions, maxDataBytes, 1) == rows + AllRows(src, regions[i..], dataBudget, nextCodeRegion)
    {
      var region := regions[i];
      ghost var rest := regions[i + 1..];
      assert regions[i..] == [region] + rest;
      AllRowsStep(src, region, rest, dataBudget, nextCodeRegion);
      var header := Header(region.address, region.section, region.folded, region.mapped);
      Associate(rows, [header], if region.folded then AllRows(src, rest, dataBudget, nextCodeRegion)
                                else StableSort(RegionContent(src, region, dataBudget, nextCodeRegion)) +
                                     AllRows(src, rest, RegionBehind(src, region, dataBudget, nextCodeRegion).0,
                                             RegionBehind(src, region, dataBudget, nextCodeRegion).1));
      rows := rows + [header];
      if !region.folded {
        var content;
        content, dataBudget, nextCodeRegion := BuildRegion(src, region, dataBudget, nextCodeRegion);
        Associate(rows, StableSort(content), AllRows(src, rest, dataBudget, nextCodeRegion));
        rows := rows + StableSort(content);
      }
    }
    NoRegionsNoRows(src, dataBudget, nextCodeRegion);
  }

  lemma NoRegionsNoRows(src: Source, budget: nat, next: nat)
    requires FittingAll(src, [])
    ensures AllRows(src, [], budget, next) == []
  {
  }

  lemma AllRowsStep(src: Source, region: Region, rest: seq<Region>, budget: nat, next: nat)
    requires FittingAll(src, [region] + rest)
    ensures FittingAll(src, rest) && Fitting(src, region, region.address)
    ensures AllRows(src, [region] + rest, budget, next) ==
            [Header(region.address, region.section, region.folded, region.mapped)]
            + (if region.folded then AllRows(src, rest, budget, next)
               else
                 StableSort(RegionContent(src, region, budget, next))
                 + AllRows(src, rest, RegionBehind(src, region, budget, next).0, RegionBehind(src, region, budget, next).1))
  {
    hide Partition, StableSort, RegionContent, RegionBehind;
    var regions := [region] + rest;
    assert regions[0] == region && regions[1..] == rest;
    assert forall k :: 0 <= k < |rest| ==> rest[k] == regions[k + 1];
  }

  lemma {:induction false} InsertRefAdds(r: StringRef, sorted: seq<StringRef>)
    ensures |InsertRef(r, sorted)| == |sorted| + 1
    ensures forall x :: x in InsertRef(r, sorted) <==> x in sorted || x == r
  {
    if sorted != [] {
      InsertRefAdds(r, sorted[1..]);
      assert forall x :: x in sorted <==> x == sorted[0] || x in sorted[1..];
    }
  }

  lemma {:induction false} InsertRefOrdered(r: StringRef, sorted: seq<StringRef>)
    requires Ordered(sorted)
    ensures Ordered(InsertRef(r, sorted))
  {
    if sorted != [] && r.address > sorted[0].address {
      InsertRefOrdered(r, sorted[1..]);
      InsertRefAdds(r, sorted[1..]);
      var rest := InsertRef(r, sorted[1..]);
      assert forall k :: 0 <= k < |rest| ==> rest[k] in rest;
      assert forall x :: x in sorted[1..] ==> sorted[0].address <= x.address;
    }
  }

  /** Every string is listed once, by ascending address. */
  lemma {:induction false} ByAddressOrdered(addresses: seq<u64>, from: nat)
    requires from <= |addresses|
    ensures Ordered(ByAddress(addresses, from))
    ensures forall r :: r in ByAddress(addresses, from) <==>
              from <= r.index < |addresses| && r.address == addresses[r.index]
    ensures |ByAddress(addresses, from)| == |addresses| - from
    decreases |addresses| - from
  {
    hide Ordered, InsertRef;
    if from == |addresses| {
      NoStringsOrdered();
    } else {
      ByAddressOrdered(addresses, from + 1);
      InsertRefAdds(StringRef(addresses[from], from), ByAddress(addresses, from + 1));
      InsertRefOrdered(StringRef(addresses[from], from), ByAddress(addresses, from + 1));
    }
  }

  lemma NoStringsOrdered()
    ensures Ordered([])
  {
  }
}
