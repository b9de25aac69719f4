/** Every mapped byte of a listed region is accounted for once. */
module ListingAccounting {
  import opened Machine
  import opened CodeData
  import opened ListingRows
  import XrefPlan

  /** The rows that hold bytes. */
  ghost function ByteRows(rows: seq<Row>): seq<Row> {
    if rows == [] then [] else (if rows[0].HoldsBytes() then [rows[0]] else []) + ByteRows(rows[1..])
  }

  /** The rows cover the interval one behind another, without a gap or an overlap. */
  ghost predicate Tiles(rows: seq<Row>, from: nat, to: nat) {
    if rows == [] then from == to
    else rows[0].addr == from && 0 < rows[0].Size() && Tiles(rows[1..], from + rows[0].Size(), to)
  }

  /** The row says about each of its bytes what the map says, in whole elements of the width the map gives while one fits. */
  ghost predicate Fits(row: Row, spans: seq<Span>) {
    match row
    case CodePage(addr, _, size, _) =>
      0 < size <= 0x1000 && forall a :: addr <= a < addr + size ==> !IsData(KindAt(spans, a))
    case Directive(addr, _, size, kind, width) =>
      && 1 <= size <= 16 && width in {1, 2, 4, 8} && size % width == 0
      && IsData(kind) && (forall a :: addr <= a < addr + size ==> KindAt(spans, a) == kind)
      && width == ShownWidth(spans, addr, size)
    case Truncated(addr, _, size, kind, width) =>
      && 0 < size && IsData(kind) && (forall a :: addr <= a < addr + size ==> KindAt(spans, a) == kind)
      && At(spans, addr).Some? && width == At(spans, addr).value.elementWidth
    case StringRow(addr, _, _) => KindAt(spans, addr) == Kind.String
    case Header(_, _, _, _) => false
  }

  /** Two, four or eight where the map says so and an element fits the row. */
  ghost function ShownWidth(spans: seq<Span>, addr: int, size: int): nat {
    if At(spans, addr).Some? && At(spans, addr).value.elementWidth in {2, 4, 8} && At(spans, addr).value.elementWidth <= size
    then At(spans, addr).value.elementWidth else 1
  }

  // ---------------------------------------------------------------------------
  // Tiling.

  lemma ByteRowsStep(rows: seq<Row>)
    ensures rows == [] ==> ByteRows(rows) == []
    ensures rows != [] ==> ByteRows(rows) == (if rows[0].HoldsBytes() then [rows[0]] else []) + ByteRows(rows[1..])
  {
  }

  lemma {:induction false} ByteRowsAppend(x: seq<Row>, y: seq<Row>)
    ensures ByteRows(x + y) == ByteRows(x) + ByteRows(y)
  {
    hide ByteRows;
    ByteRowsStep(x);
    if x == [] {
      assert x + y == y;
    } else {
      ByteRowsAppend(x[1..], y);
      ByteRowsStep(x + y);
      assert (x + y)[1..] == x[1..] + y;
    }
  }

  lemma {:induction false} TilesAppend(x: seq<Row>, y: seq<Row>, from: nat, mid: nat, to: nat)
    requires Tiles(x, from, mid) && Tiles(y, mid, to)
    ensures Tiles(x + y, from, to)
  {
    if x == [] {
      assert x + y == y;
    } else {
      TilesAppend(x[1..], y, from + x[0].Size(), mid, to);
      assert (x + y)[1..] == x[1..] + y;
    }
  }

  lemma {:induction false} PagesTile(addr: nat, size: nat, section: u32, region: nat)
    requires addr + size <= U64_LIMIT
    ensures ByteRows(Pages(addr, size, section, region)) == Pages(addr, size, section, region)
    ensures Tiles(Pages(addr, size, section, region), addr, addr + size)
    decreases size
  {
    hide Pages;
    PagesStep(addr, size, section, region);
    if size > 0 {
      var n := Min(CODE_PAGE_BYTES, size);
      PagesTile(addr + n, size - n, section, region);
      assert Pages(addr, size, section, region)[1..] == Pages(addr + n, size - n, section, region);
    }
  }

  lemma {:induction false} DirectivesTile(addr: nat, size: nat, section: u32, kind: Kind, width: u8)
    requires addr + size <= U64_LIMIT
    ensures ByteRows(Directives(addr, size, section, kind, width)) == Directives(addr, size, section, kind, width)
    ensures Tiles(Directives(addr, size, section, kind, width), addr, addr + size)
    decreases size
  {
    hide Directives;
    DirectivesStep(addr, size, section, kind, width);
    if size > 0 {
      var n := Shape(width, size).0;
      DirectivesTile(addr + n, size - n, section, kind, width);
      assert Directives(addr, size, section, kind, width)[1..] == Directives(addr + n, size - n, section, kind, width);
    }
  }

  lemma DataRowsTile(addr: nat, size: nat, shown: nat, section: u32, kind: Kind, width: u8)
    requires shown <= size <= U64_MAX && addr + size <= U64_LIMIT
    ensures ByteRows(DataRows(addr, size, shown, section, kind, width)) == DataRows(addr, size, shown, section, kind, width)
    ensures Tiles(DataRows(addr, size, shown, section, kind, width), addr, addr + size)
  {
    hide Directives;
    var directives := Directives(addr, shown, section, kind, width);
    DirectivesTile(addr, shown, section, kind, width);
    if shown < size {
      var omission := [Truncated(addr + shown, section, size - shown, kind, width)];
      ByteRowsAppend(directives, omission);
      TilesAppend(directives, omission, addr, addr + shown, addr + size);
    } else {
      assert directives + [] == directives;
    }
  }

  /** The string rows of a stretch are exactly the strings that start in it. */
  lemma {:induction false} StringRowsExact(strings: seq<StringRef>, begin: nat, size: nat, section: u32)
    ensures forall row :: row in StringRows(strings, begin, size, section) <==>
              row.StringRow? && row.section == section && begin <= row.addr < begin + size &&
              StringRef(row.addr, row.index) in strings
  {
    if strings != [] {
      StringRowsExact(strings[1..], begin, size, section);
      assert forall r :: r in strings <==> r == strings[0] || r in strings[1..];
    }
  }

  lemma {:induction false} StringsHoldNoBytes(rows: seq<Row>)
    requires forall row :: row in rows ==> row.StringRow?
    ensures ByteRows(rows) == []
  {
    if rows != [] {
      assert rows[0] in rows && forall row :: row in rows[1..] ==> row in rows;
      StringsHoldNoBytes(rows[1..]);
    }
  }

  lemma DataStretchTiles(src: Source, section: u32, at: nat, size: nat, shown: nat, kind: Kind, width: u8, strings: seq<Row>)
    requires shown <= size <= U64_MAX && at + size <= U64_LIMIT
    requires strings == [] || strings == StringRows(src.strings, at, size, section)
    ensures Tiles(ByteRows(DataRows(at, size, shown, section, kind, width) + strings), at, at + size)
  {
    hide DataRows, StringRows, Tiles, ByteRows;
    var data := DataRows(at, size, shown, section, kind, width);
    DataRowsTile(at, size, shown, section, kind, width);
    StringRowsExact(src.strings, at, size, section);
    StringsHoldNoBytes(strings);
    ByteRowsAppend(data, strings);
    assert data + [] == data;
  }

  lemma ContentAppendTiles(rows: seq<Row>, rest: seq<Row>, from: nat, mid: nat, to: nat)
    requires Tiles(ByteRows(rows), from, mid) && Tiles(ByteRows(rest), mid, to)
    ensures Tiles(ByteRows(rows + rest), from, to)
  {
    ByteRowsAppend(rows, rest);
    TilesAppend(ByteRows(rows), ByteRows(rest), from, mid, to);
  }

  /** Code pages, directives and omissions of an executable region cover exactly its mapped bytes. */
  lemma {:induction false} ContentTiles(src: Source, region: Region, at: nat, regionBudget: nat, budget: nat, next: nat, inCode: bool)
    requires Fitting(src, region, at) && (inCode ==> 0 < next)
    ensures Tiles(ByteRows(Content(src, region, at, regionBudget, budget, next, inCode)), at, region.End())
    decreases region.End() - at
  {
    hide Content, Behind, Pages, DataRows, StringRows, StretchEnd, KindAt, Partition, Tiles, ByteRows;
    ContentStep(src, region, at, regionBudget, budget, next, inCode);
    if at == region.End() {
      NothingTiles(at);
    } else {
      var e := StretchEnd(src.spans, at, region.End());
      var kind := KindAt(src.spans, at);
      if IsData(kind) {
        var shown := Shown(e - at, regionBudget, budget);
        var rest := Content(src, region, e, regionBudget - shown, budget - shown, next, false);
        var strings := if kind == Kind.String && !region.peHeader then StringRows(src.strings, at, e - at, region.section) else [];
        var data := DataRows(at, e - at, shown, region.section, kind, WidthAt(src.spans, at));
        ContentTiles(src, region, e, regionBudget - shown, budget - shown, next, false);
        DataStretchTiles(src, region.section, at, e - at, shown, kind, WidthAt(src.spans, at), strings);
        ContentAppendTiles(data + strings, rest, at, e, region.End());
      } else {
        var number := if inCode then next - 1 else next;
        var next' := if inCode then next else next + 1;
        ContentTiles(src, region, e, regionBudget, budget, next', true);
        PagesTile(at, e - at, region.section, number);
        ContentAppendTiles(Pages(at, e - at, region.section, number),
                           Content(src, region, e, regionBudget, budget, next', true), at, e, region.End());
      }
    }
  }

  lemma NothingTiles(at: nat)
    ensures Tiles(ByteRows([]), at, at)
  {
  }

  // ---------------------------------------------------------------------------
  // Classification.

  lemma {:induction false} PagesFit(spans: seq<Span>, addr: nat, size: nat, section: u32, region: nat)
    requires addr + size <= U64_LIMIT
    requires forall a :: addr <= a < addr + size ==> !IsData(KindAt(spans, a))
    ensures forall row :: row in Pages(addr, size, section, region) ==>
              Fits(row, spans) && row.CodePage? && row.region == region && row.section == section
    decreases size
  {
    hide Pages, KindAt;
    PagesStep(addr, size, section, region);
    if size > 0 {
      var n := Min(CODE_PAGE_BYTES, size);
      PagesFit(spans, addr + n, size - n, section, region);
    }
  }

  ghost predicate SaysWidth(spans: seq<Span>, a: int, kind: Kind, width: u8) {
    At(spans, a).Some? && At(spans, a).value.kind == kind && At(spans, a).value.elementWidth == width
  }

  lemma {:induction false} DirectivesFit(spans: seq<Span>, addr: nat, size: nat, section: u32, kind: Kind, width: u8)
    requires addr + size <= U64_LIMIT && IsData(kind)
    requires forall a :: addr <= a < addr + size ==> SaysWidth(spans, a, kind, width)
    ensures forall row :: row in Directives(addr, size, section, kind, width) ==>
              Fits(row, spans) && row.Directive? && row.section == section
    decreases size
  {
    hide Directives, At, Fits, Shape;
    DirectivesStep(addr, size, section, kind, width);
    if size > 0 {
      var n := Shape(width, size).0;
      DirectivesFit(spans, addr + n, size - n, section, kind, width);
      ShapeFits(spans, addr, size, section, kind, width);
    }
  }

  lemma ShapeFits(spans: seq<Span>, addr: nat, size: nat, section: u32, kind: Kind, width: u8)
    requires 0 < size && addr + size <= U64_LIMIT && IsData(kind)
    requires forall a :: addr <= a < addr + size ==> SaysWidth(spans, a, kind, width)
    ensures Fits(Directive(addr, section, Shape(width, size).0, kind, Shape(width, size).1), spans)
  {
    hide At, Shape;
    assert SaysWidth(spans, addr, kind, width);
    var shape := Shape(width, size);
    if shape.1 > 1 {
      WholeElements(shape.0, shape.1);
    }
    forall a | addr <= a < addr + shape.0
      ensures KindAt(spans, a) == kind
    {
      assert SaysWidth(spans, a, kind, width);
    }
  }

  lemma WholeElements(n: nat, d: nat)
    requires 0 < n && 0 < d && n % d == 0
    ensures d <= n
  {
    if n < d {
      SmallRemainder(n, d);
    }
  }

  lemma SmallRemainder(n: nat, d: nat)
    requires n < d
    ensures n % d == n
  {
  }

  lemma OmissionFits(spans: seq<Span>, addr: nat, size: nat, section: u32, kind: Kind, width: u8)
    requires 0 < size <= U64_MAX && addr + size <= U64_LIMIT && IsData(kind)
    requires forall a :: addr <= a < addr + size ==> SaysWidth(spans, a, kind, width)
    ensures Fits(Truncated(addr, section, size, kind, width), spans)
  {
    hide At;
    assert SaysWidth(spans, addr, kind, width);
    forall a | addr <= a < addr + size
      ensures KindAt(spans, a) == kind
    {
      assert SaysWidth(spans, a, kind, width);
    }
  }

  lemma StretchKind(spans: seq<Span>, at: nat, limit: nat)
    requires Partition(spans, 0) && at < limit
    ensures at < StretchEnd(spans, at, limit) <= limit
    ensures forall a :: at <= a < StretchEnd(spans, at, limit) ==> KindAt(spans, a) == KindAt(spans, at)
    ensures IsData(KindAt(spans, at)) ==>
              forall a :: at <= a < StretchEnd(spans, at, limit) ==> SaysWidth(spans, a, KindAt(spans, at), WidthAt(spans, at))
  {
    hide At, StretchEnd, Partition;
    StretchUniform(spans, 0, at, limit);
  }

  lemma DataStretchFits(src: Source, section: u32, at: nat, size: nat, shown: nat, kind: Kind, width: u8)
    requires shown <= size <= U64_MAX && 0 < size && at + size <= U64_LIMIT && IsData(kind)
    requires forall a :: at <= a < at + size ==> SaysWidth(src.spans, a, kind, width)
    ensures forall row :: row in DataRows(at, size, shown, section, kind, width) ==>
              Fits(row, src.spans) && row.section == section && !row.CodePage?
    ensures kind == Kind.String ==> forall row :: row in StringRows(src.strings, at, size, section) ==>
              Fits(row, src.spans) && row.section == section && !row.CodePage?
  {
    hide Directives, StringRows, At;
    DirectivesFit(src.spans, at, shown, section, kind, width);
    if shown < size {
      OmissionFits(src.spans, at + shown, size - shown, section, kind, width);
    }
    StringRowsExact(src.strings, at, size, section);
    forall row | row in StringRows(src.strings, at, size, section)
      ensures KindAt(src.spans, row.addr) == kind
    {
      assert SaysWidth(src.spans, row.addr, kind, width);
    }
  }

  /** No row of an executable region speaks for a byte of another kind. */
  lemma {:induction false} ContentFits(src: Source, region: Region, at: nat, regionBudget: nat, budget: nat, next: nat, inCode: bool)
    requires Fitting(src, region, at) && (inCode ==> 0 < next)
    ensures forall row :: row in Content(src, region, at, regionBudget, budget, next, inCode) ==>
              Fits(row, src.spans) && row.section == region.section
    ensures forall row :: row in Content(src, region, at, regionBudget, budget, next, inCode) && row.CodePage? ==>
              (if inCode then next - 1 else next) <= row.region < Behind(src, region, at, regionBudget, budget, next, inCode).1
    ensures next <= Behind(src, region, at, regionBudget, budget, next, inCode).1
    decreases region.End() - at
  {
    hide Content, Behind, Pages, DataRows, StringRows, StretchEnd, KindAt, WidthAt, At, Partition, IsData, Fits;
    ContentStep(src, region, at, regionBudget, budget, next, inCode);
    if at < region.End() {
      StretchKind(src.spans, at, region.End());
      var e := StretchEnd(src.spans, at, region.End());
      var kind := KindAt(src.spans, at);
      if IsData(kind) {
        var shown := Shown(e - at, regionBudget, budget);
        DataStretchFits(src, region.section, at, e - at, shown, kind, WidthAt(src.spans, at));
        ContentFits(src, region, e, regionBudget - shown, budget - shown, next, false);
      } else {
        PagesFit(src.spans, at, e - at, region.section, if inCode then next - 1 else next);
        ContentFits(src, region, e, regionBudget, budget, if inCode then next else next + 1, true);
      }
    }
  }

  // ---------------------------------------------------------------------------
  // Budgets.

  ghost function ShownBytes(rows: seq<Row>): nat {
    if rows == [] then 0 else (if rows[0].Directive? then rows[0].size else 0) + ShownBytes(rows[1..])
  }

  ghost function PageBytes(rows: seq<Row>): nat {
    if rows == [] then 0 else (if rows[0].CodePage? then rows[0].size else 0) + PageBytes(rows[1..])
  }

  lemma {:induction false} BytesAppend(x: seq<Row>, y: seq<Row>)
    ensures ShownBytes(x + y) == ShownBytes(x) + ShownBytes(y)
    ensures PageBytes(x + y) == PageBytes(x) + PageBytes(y)
  {
    if x == [] {
      assert x + y == y;
    } else {
      BytesAppend(x[1..], y);
      assert (x + y)[1..] == x[1..] + y;
    }
  }

  /** Rows that are neither pages nor directives add to neither count. */
  lemma {:induction false} OthersAddNothing(rows: seq<Row>)
    requires forall row :: row in rows ==> !row.Directive? && !row.CodePage?
    ensures ShownBytes(rows) == 0 && PageBytes(rows) == 0
  {
    if rows != [] {
      assert rows[0] in rows && forall row :: row in rows[1..] ==> row in rows;
      OthersAddNothing(rows[1..]);
    }
  }

  lemma {:induction false} PagesCount(addr: nat, size: nat, section: u32, region: nat)
    requires addr + size <= U64_LIMIT
    ensures ShownBytes(Pages(addr, size, section, region)) == 0 && PageBytes(Pages(addr, size, section, region)) == size
    decreases size
  {
    hide Pages;
    PagesStep(addr, size, section, region);
    if size > 0 {
      var n := Min(CODE_PAGE_BYTES, size);
      PagesCount(addr + n, size - n, section, region);
      assert Pages(addr, size, section, region)[1..] == Pages(addr + n, size - n, section, region);
    }
  }

  lemma {:induction false} DirectivesCount(addr: nat, size: nat, section: u32, kind: Kind, width: u8)
    requires addr + size <= U64_LIMIT
    ensures ShownBytes(Directives(addr, size, section, kind, width)) == size
    ensures PageBytes(Directives(addr, size, section, kind, width)) == 0
    decreases size
  {
    hide Directives;
    DirectivesStep(addr, size, section, kind, width);
    if size > 0 {
      var n := Shape(width, size).0;
      DirectivesCount(addr + n, size - n, section, kind, width);
      assert Directives(addr, size, section, kind, width)[1..] == Directives(addr + n, size - n, section, kind, width);
    }
  }

  lemma DataStretchCount(src: Source, section: u32, at: nat, size: nat, shown: nat, kind: Kind, width: u8, strings: seq<Row>)
    requires shown <= size <= U64_MAX && at + size <= U64_LIMIT
    requires strings == [] || strings == StringRows(src.strings, at, size, section)
    ensures ShownBytes(DataRows(at, size, shown, section, kind, width) + strings) == shown
    ensures PageBytes(DataRows(at, size, shown, section, kind, width) + strings) == 0
  {
    hide Directives, StringRows, ShownBytes, PageBytes;
    var directives := Directives(at, shown, section, kind, width);
    var omission := if shown < size then [Truncated(at + shown, section, size - shown, kind, width)] else [];
    DirectivesCount(at, shown, section, kind, width);
    StringRowsExact(src.strings, at, size, section);
    OthersAddNothing(omission);
    OthersAddNothing(strings);
    BytesAppend(directives, omission);
    BytesAppend(directives + omission, strings);
  }

  lemma {:induction false} DataCountSplit(spans: seq<Span>, lo: nat, mid: nat, hi: nat)
    requires lo <= mid <= hi
    ensures XrefPlan.DataCount(spans, lo, hi) == XrefPlan.DataCount(spans, lo, mid) + XrefPlan.DataCount(spans, mid, hi)
    decreases hi
  {
    if mid < hi {
      DataCountSplit(spans, lo, mid, hi - 1);
    }
  }

  lemma StretchCount(spans: seq<Span>, at: nat, limit: nat)
    requires Partition(spans, 0) && at < limit <= U64_LIMIT && limit - at <= U64_MAX
    ensures at < StretchEnd(spans, at, limit) <= limit
    ensures XrefPlan.DataCount(spans, at, limit) ==
            (if IsData(KindAt(spans, at)) then StretchEnd(spans, at, limit) - at else 0)
            + XrefPlan.DataCount(spans, StretchEnd(spans, at, limit), limit)
  {
    hide StretchEnd, Partition, XrefPlan.DataCount;
    var e := StretchEnd(spans, at, limit);
    StretchKind(spans, at, limit);
    forall a | at <= a < e
      ensures XrefPlan.IsDataAt(spans, a) == IsData(KindAt(spans, at))
    {
      assert KindAt(spans, a) == KindAt(spans, at);
    }
    XrefPlan.Stretch(spans, at, at, e, 0, IsData(KindAt(spans, at)));
    NoDataCount(spans, at);
    DataCountSplit(spans, at, e, limit);
  }

  lemma NoDataCount(spans: seq<Span>, at: nat)
    ensures XrefPlan.DataCount(spans, at, at) == 0
  {
  }

  /**
    The data shown in an executable region is all its data, or what the tighter budget leaves; and its
    pages hold exactly the bytes a cross-reference pass decodes there.
   */
  lemma {:induction false} ContentBudgets(src: Source, region: Region, at: nat, regionBudget: nat, budget: nat, next: nat, inCode: bool)
    requires Fitting(src, region, at) && (inCode ==> 0 < next)
    ensures var data := XrefPlan.DataCount(src.spans, at, region.End());
            var rows := Content(src, region, at, regionBudget, budget, next, inCode);
            && ShownBytes(rows) == Shown(data, regionBudget, budget)
            && PageBytes(rows) == region.End() - at - data
            && Behind(src, region, at, regionBudget, budget, next, inCode).0 == budget - ShownBytes(rows)
    decreases region.End() - at
  {
    hide Content, Behind, Pages, DataRows, StringRows, StretchEnd, KindAt, Partition, ShownBytes, PageBytes, XrefPlan.DataCount;
    ContentStep(src, region, at, regionBudget, budget, next, inCode);
    if at == region.End() {
      OthersAddNothing([]);
      NoDataCount(src.spans, at);
    } else {
      StretchCount(src.spans, at, region.End());
      var e := StretchEnd(src.spans, at, region.End());
      var kind := KindAt(src.spans, at);
      if IsData(kind) {
        var shown := Shown(e - at, regionBudget, budget);
        var strings := if kind == Kind.String && !region.peHeader then StringRows(src.strings, at, e - at, region.section) else [];
        var width := WidthAt(src.spans, at);
        ContentBudgets(src, region, e, regionBudget - shown, budget - shown, next, false);
        DataStretchCount(src, region.section, at, e - at, shown, kind, width, strings);
        BytesAppend(DataRows(at, e - at, shown, region.section, kind, width) + strings,
                    Content(src, region, e, regionBudget - shown, budget - shown, next, false));
      } else {
        var number := if inCode then next - 1 else next;
        var next' := if inCode then next else next + 1;
        ContentBudgets(src, region, e, regionBudget, budget, next', true);
        PagesCount(at, e - at, region.section, number);
        BytesAppend(Pages(at, e - at, region.section, number), Content(src, region, e, regionBudget, budget, next', true));
      }
    }
  }

  // ---------------------------------------------------------------------------
  // Code regions.

  /** Pages are numbered so that a new number starts exactly behind data, or at the start. */
  ghost predicate Numbered(rows: seq<Row>, next: nat, inCode: bool) {
    rows == [] ||
    if rows[0].CodePage? then
      rows[0].region == (if inCode then next - 1 else next) && Numbered(rows[1..], if inCode then next else next + 1, true)
    else Numbered(rows[1..], next, false)
  }

  /** Two pages share a number exactly when no data lies between them. */
  lemma {:induction false} NumbersSeparate(rows: seq<Row>, next: nat, inCode: bool)
    requires Numbered(rows, next, inCode)
    ensures forall k :: 0 <= k < |rows| && rows[k].CodePage? ==>
              (if inCode then next - 1 else next) <= rows[k].region &&
              (inCode ==> (rows[k].region == next - 1 <==> forall i :: 0 <= i < k ==> rows[i].CodePage?))
    ensures forall j, k :: 0 <= j < k < |rows| && rows[j].CodePage? && rows[k].CodePage? ==>
              rows[j].region <= rows[k].region &&
              (rows[j].region == rows[k].region <==> forall i :: j < i < k ==> rows[i].CodePage?)
  {
    if rows != [] {
      var rest := rows[1..];
      assert forall k :: 0 <= k < |rest| ==> rest[k] == rows[k + 1];
      if rows[0].CodePage? {
        NumbersSeparate(rest, if inCode then next else next + 1, true);
      } else {
        NumbersSeparate(rest, next, false);
      }
    }
  }

  /** Leading pages of one number, and rows that are no pages, leave the numbering to what follows. */
  lemma {:induction false} NumberedBehind(rows: seq<Row>, rest: seq<Row>, next: nat, inCode: bool, code: bool)
    requires rows != [] && (inCode ==> 0 < next)
    requires forall row :: row in rows ==> row.CodePage? == code
    requires code ==> forall row :: row in rows ==> row.region == if inCode then next - 1 else next
    ensures var next' := if code && !inCode then next + 1 else next;
            Numbered(rest, next', code) ==> Numbered(rows + rest, next, inCode)
  {
    assert rows[0] in rows && forall row :: row in rows[1..] ==> row in rows;
    assert (rows + rest)[1..] == rows[1..] + rest;
    if |rows| == 1 {
      assert rows[1..] + rest == rest;
    } else {
      NumberedBehind(rows[1..], rest, if code && !inCode then next + 1 else next, code, code);
    }
  }

  lemma StretchRows(rows: seq<Row>, from: nat, to: nat)
    requires Tiles(rows, from, to) && from < to
    ensures rows != []
  {
  }

  lemma {:induction false} DataHasNoPages(src: Source, section: u32, at: nat, size: nat, shown: nat, kind: Kind, width: u8, strings: seq<Row>)
    requires shown <= size <= U64_MAX && at + size <= U64_LIMIT
    requires strings == [] || strings == StringRows(src.strings, at, size, section)
    ensures forall row :: row in ByteRows(DataRows(at, size, shown, section, kind, width) + strings) ==> !row.CodePage?
  {
    hide Directives, StringRows, ByteRows;
    NoPages(at, shown, section, kind, width);
    StringRowsExact(src.strings, at, size, section);
    ByteRowsWithin(DataRows(at, size, shown, section, kind, width) + strings);
  }

  lemma {:induction false} NoPages(at: nat, size: nat, section: u32, kind: Kind, width: u8)
    requires at + size <= U64_LIMIT
    ensures forall row :: row in Directives(at, size, section, kind, width) ==>
              row.Directive? && row.section == section && row.kind == kind && 1 <= row.size <= 16 &&
              (width == 1 ==> row.width == 1)
    decreases size
  {
    hide Directives;
    DirectivesStep(at, size, section, kind, width);
    if size > 0 {
      var n := Shape(width, size).0;
      NoPages(at + n, size - n, section, kind, width);
    }
  }

  lemma {:induction false} ByteRowsWithin(rows: seq<Row>)
    ensures forall row :: row in ByteRows(rows) <==> row in rows && row.HoldsBytes()
  {
    if rows != [] {
      ByteRowsWithin(rows[1..]);
      assert forall row :: row in rows <==> row == rows[0] || row in rows[1..];
    }
  }

  lemma {:induction false} PagesOfRegion(addr: nat, size: nat, section: u32, region: nat)
    requires addr + size <= U64_LIMIT
    ensures forall row :: row in Pages(addr, size, section, region) ==> row.CodePage? && row.region == region
    decreases size
  {
    hide Pages;
    PagesStep(addr, size, section, region);
    if size > 0 {
      var n := Min(CODE_PAGE_BYTES, size);
      PagesOfRegion(addr + n, size - n, section, region);
    }
  }

  lemma {:induction false} ContentNumbered(src: Source, region: Region, at: nat, regionBudget: nat, budget: nat, next: nat, inCode: bool)
    requires Fitting(src, region, at) && (inCode ==> 0 < next)
    ensures Numbered(ByteRows(Content(src, region, at, regionBudget, budget, next, inCode)), next, inCode)
    decreases region.End() - at
  {
    hide Content, Behind, Pages, DataRows, StringRows, StretchEnd, KindAt, Partition, Tiles, ByteRows, Numbered;
    ContentStep(src, region, at, regionBudget, budget, next, inCode);
    if at == region.End() {
      NothingNumbered(next, inCode);
    } else {
      var e := StretchEnd(src.spans, at, region.End());
      var kind := KindAt(src.spans, at);
      if IsData(kind) {
        var shown := Shown(e - at, regionBudget, budget);
        var rest := Content(src, region, e, regionBudget - shown, budget - shown, next, false);
        var strings := if kind == Kind.String && !region.peHeader then StringRows(src.strings, at, e - at, region.section) else [];
        var width := WidthAt(src.spans, at);
        var rows := DataRows(at, e - at, shown, region.section, kind, width) + strings;
        ContentNumbered(src, region, e, regionBudget - shown, budget - shown, next, false);
        DataStretchTiles(src, region.section, at, e - at, shown, kind, width, strings);
        StretchRows(ByteRows(rows), at, e);
        DataHasNoPages(src, region.section, at, e - at, shown, kind, width, strings);
        ByteRowsAppend(rows, rest);
        NumberedBehind(ByteRows(rows), ByteRows(rest), next, inCode, false);
      } else {
        var number := if inCode then next - 1 else next;
        var next' := if inCode then next else next + 1;
        var rest := Content(src, region, e, regionBudget, budget, next', true);
        var rows := Pages(at, e - at, region.section, number);
        ContentNumbered(src, region, e, regionBudget, budget, next', true);
        PagesTile(at, e - at, region.section, number);
        StretchRows(rows, at, e);
        PagesOfRegion(at, e - at, region.section, number);
        ByteRowsAppend(rows, rest);
        NumberedBehind(rows, ByteRows(rest), next, inCode, true);
      }
    }
  }

  lemma NothingNumbered(next: nat, inCode: bool)
    ensures Numbered(ByteRows([]), next, inCode)
  {
  }

  // ---------------------------------------------------------------------------
  // Order.

  ghost predicate InOrder(rows: seq<Row>) {
    forall j, k :: 0 <= j < k < |rows| ==> !Before(rows[k], rows[j])
  }

  lemma {:induction false} InsertInOrder(row: Row, sorted: seq<Row>)
    requires InOrder(sorted)
    ensures InOrder(Insert(row, sorted))
    ensures forall x :: x in Insert(row, sorted) <==> x == row || x in sorted
  {
    if sorted != [] && Before(sorted[0], row) {
      var rest := Insert(row, sorted[1..]);
      InsertInOrder(row, sorted[1..]);
      assert forall x :: x in sorted <==> x == sorted[0] || x in sorted[1..];
      assert forall k :: 0 <= k < |rest| ==> rest[k] in rest;
      assert forall x :: x in sorted[1..] ==> !Before(x, sorted[0]);
    }
  }

  lemma {:induction false} InsertAdds(row: Row, sorted: seq<Row>)
    ensures multiset(Insert(row, sorted)) == multiset{row} + multiset(sorted)
  {
    if sorted != [] && Before(sorted[0], row) {
      InsertAdds(row, sorted[1..]);
      assert sorted == [sorted[0]] + sorted[1..];
    }
  }

  /** A row that holds bytes passes only string rows, and a string row moves no other row. */
  lemma {:induction false} InsertKeepsBytes(row: Row, sorted: seq<Row>)
    requires row.HoldsBytes() ==> forall x :: x in sorted && x.HoldsBytes() ==> row.addr < x.addr
    ensures ByteRows(Insert(row, sorted)) == ByteRows([row] + sorted)
  {
    hide ByteRows;
    ByteRowsStep([row] + sorted);
    assert ([row] + sorted)[1..] == sorted;
    if sorted != [] && Before(sorted[0], row) {
      assert sorted[0] in sorted && forall x :: x in sorted[1..] ==> x in sorted;
      InsertKeepsBytes(row, sorted[1..]);
      var rest := Insert(row, sorted[1..]);
      ByteRowsStep([sorted[0]] + rest);
      assert ([sorted[0]] + rest)[1..] == rest;
      ByteRowsStep([row] + sorted[1..]);
      assert ([row] + sorted[1..])[1..] == sorted[1..];
      ByteRowsStep(sorted);
    }
  }

  /** Sorting puts rows in order, loses none, and keeps rows that hold bytes as they were. */
  lemma {:induction false} SortKeeps(rows: seq<Row>, from: nat, to: nat)
    requires Tiles(ByteRows(rows), from, to)
    ensures InOrder(StableSort(rows)) && multiset(StableSort(rows)) == multiset(rows)
    ensures forall x :: x in StableSort(rows) <==> x in rows
    ensures ByteRows(StableSort(rows)) == ByteRows(rows)
  {
    hide ByteRows, Insert, InOrder, Before;
    if rows == [] {
      NothingInOrder();
    } else {
      var row, rest := rows[0], rows[1..];
      ByteRowsStep(rows);
      if row.HoldsBytes() {
        assert ByteRows(rows)[1..] == ByteRows(rest);
        SortKeeps(rest, from + row.Size(), to);
        TilesAbove(ByteRows(rest), from + row.Size(), to);
      } else {
        assert ByteRows(rows) == ByteRows(rest);
        SortKeeps(rest, from, to);
      }
      ByteRowsWithin(rest);
      assert forall x :: x in rows <==> x == row || x in rest;
      InsertInOrder(row, StableSort(rest));
      InsertAdds(row, StableSort(rest));
      assert rows == [row] + rest;
      InsertKeepsBytes(row, StableSort(rest));
      ByteRowsStep([row] + StableSort(rest));
      assert ([row] + StableSort(rest))[1..] == StableSort(rest);
    }
  }

  lemma NothingInOrder()
    ensures InOrder([])
  {
  }

  lemma {:induction false} TilesAbove(rows: seq<Row>, from: nat, to: nat)
    requires Tiles(rows, from, to)
    ensures from <= to
    ensures forall row :: row in rows ==> from <= row.addr && row.addr + row.Size() <= to
  {
    if rows != [] {
      TilesAbove(rows[1..], from + rows[0].Size(), to);
    }
  }

  // ---------------------------------------------------------------------------
  // Whole regions.

  lemma {:induction false} CountByteRows(rows: seq<Row>)
    ensures ShownBytes(ByteRows(rows)) == ShownBytes(rows) && PageBytes(ByteRows(rows)) == PageBytes(rows)
  {
    hide ByteRows;
    ByteRowsStep(rows);
    if rows != [] {
      CountByteRows(rows[1..]);
      BytesAppend(if rows[0].HoldsBytes() then [rows[0]] else [], ByteRows(rows[1..]));
    }
  }

  /** The data bytes of a region: classified ones when it is executable, otherwise all. */
  ghost function DataBytes(src: Source, region: Region): nat {
    if region.executable then XrefPlan.DataCount(src.spans, region.address, region.End()) else region.mapped
  }

  lemma RegionTiles(src: Source, region: Region, budget: nat, next: nat)
    requires Fitting(src, region, region.address)
    ensures Tiles(ByteRows(RegionContent(src, region, budget, next)), region.address, region.End())
    ensures ShownBytes(RegionContent(src, region, budget, next)) ==
            Shown(DataBytes(src, region), Min(region.mapped, DATA_BYTES_PER_REGION), budget)
    ensures PageBytes(RegionContent(src, region, budget, next)) == region.mapped - DataBytes(src, region)
    ensures RegionBehind(src, region, budget, next).0 == budget - ShownBytes(RegionContent(src, region, budget, next))
  {
    hide Content, Behind, DataRows, StringRows, Tiles, ByteRows, Partition, ShownBytes, PageBytes;
    var regionBudget := Min(region.mapped, DATA_BYTES_PER_REGION);
    if region.executable {
      ContentTiles(src, region, region.address, regionBudget, budget, next, false);
      ContentBudgets(src, region, region.address, regionBudget, budget, next, false);
    } else {
      var shown := Shown(region.mapped, regionBudget, budget);
      var strings := if region.peHeader then [] else StringRows(src.strings, region.address, region.mapped, region.section);
      DataStretchTiles(src, region.section, region.address, region.mapped, shown, Kind.Data, 1, strings);
      DataStretchCount(src, region.section, region.address, region.mapped, shown, Kind.Data, 1, strings);
    }
  }

  /**
    What an unfolded region lists: rows in order whose byte-holding ones cover the mapped bytes exactly
    once, and as much data as the region's and the listing's budgets allow, no more and no less.
   */
  lemma RegionAccounts(src: Source, region: Region, budget: nat, next: nat)
    requires Fitting(src, region, region.address)
    ensures var rows := StableSort(RegionContent(src, region, budget, next));
            && InOrder(rows) && multiset(rows) == multiset(RegionContent(src, region, budget, next))
            && Tiles(ByteRows(rows), region.address, region.End())
            && ShownBytes(rows) == Min(DataBytes(src, region), Min(0x10_0000, budget))
            && PageBytes(rows) == region.mapped - DataBytes(src, region)
            && RegionBehind(src, region, budget, next).0 == budget - ShownBytes(rows)
  {
    hide Content, RegionContent, RegionBehind, StableSort, InOrder, Tiles, ByteRows, Partition, ShownBytes, PageBytes, XrefPlan.DataCount;
    var content := RegionContent(src, region, budget, next);
    RegionTiles(src, region, budget, next);
    SortKeeps(content, region.address, region.End());
    CountByteRows(content);
    CountByteRows(StableSort(content));
  }

  /** Every row of an executable region fits the map, and page numbers change exactly across data. */
  lemma ExecutableRegionSpeaksTrue(src: Source, region: Region, budget: nat, next: nat)
    requires Fitting(src, region, region.address) && region.executable
    ensures var rows := StableSort(RegionContent(src, region, budget, next));
            forall row :: row in rows ==> Fits(row, src.spans) && row.section == region.section
    ensures var rows := ByteRows(StableSort(RegionContent(src, region, budget, next)));
            forall j, k :: 0 <= j < k < |rows| && rows[j].CodePage? && rows[k].CodePage? ==>
              rows[j].region <= rows[k].region &&
              (rows[j].region == rows[k].region <==> forall i :: j < i < k ==> rows[i].CodePage?)
    ensures var rows := StableSort(RegionContent(src, region, budget, next));
            forall row :: row in rows && row.CodePage? ==>
              next <= row.region < RegionBehind(src, region, budget, next).1
  {
    hide Content, Behind, StableSort, Tiles, ByteRows, Numbered, Partition, Fits;
    var regionBudget := Min(region.mapped, DATA_BYTES_PER_REGION);
    var content := Content(src, region, region.address, regionBudget, budget, next, false);
    ContentTiles(src, region, region.address, regionBudget, budget, next, false);
    ContentFits(src, region, region.address, regionBudget, budget, next, false);
    ContentNumbered(src, region, region.address, regionBudget, budget, next, false);
    SortKeeps(content, region.address, region.End());
    NumbersSeparate(ByteRows(content), next, false);
  }

  /** A listing never shows more data than its budget, over all regions together. */
  lemma {:induction false} ListingWithinBudget(src: Source, regions: seq<Region>, budget: nat, next: nat)
    requires FittingAll(src, regions)
    ensures ShownBytes(AllRows(src, regions, budget, next)) <= budget
  {
    hide AllRows, RegionContent, RegionBehind, StableSort, ShownBytes, PageBytes, InOrder, Tiles, ByteRows, Partition;
    if regions == [] {
      NoRegionsNoRows(src, budget, next);
      OthersAddNothing([]);
    } else {
      var region, rest := regions[0], regions[1..];
      assert regions == [region] + rest;
      AllRowsStep(src, region, rest, budget, next);
      var header := [Header(region.address, region.section, region.folded, region.mapped)];
      OthersAddNothing(header);
      if region.folded {
        ListingWithinBudget(src, rest, budget, next);
        BytesAppend(header, AllRows(src, rest, budget, next));
      } else {
        var behind := RegionBehind(src, region, budget, next);
        RegionAccounts(src, region, budget, next);
        ListingWithinBudget(src, rest, behind.0, behind.1);
        BytesAppend(StableSort(RegionContent(src, region, budget, next)), AllRows(src, rest, behind.0, behind.1));
        BytesAppend(header, StableSort(RegionContent(src, region, budget, next)) + AllRows(src, rest, behind.0, behind.1));
      }
    }
  }

  /** The rows that hold bytes, and the headers that separate regions. */
  ghost function Landmarks(rows: seq<Row>): seq<Row> {
    if rows == [] then []
    else (if rows[0].HoldsBytes() || rows[0].Header? then [rows[0]] else []) + Landmarks(rows[1..])
  }

  lemma LandmarksStep(rows: seq<Row>)
    ensures rows == [] ==> Landmarks(rows) == []
    ensures rows != [] ==>
      Landmarks(rows) == (if rows[0].HoldsBytes() || rows[0].Header? then [rows[0]] else []) + Landmarks(rows[1..])
  {
  }

  lemma {:induction false} LandmarksAppend(x: seq<Row>, y: seq<Row>)
    ensures Landmarks(x + y) == Landmarks(x) + Landmarks(y)
  {
    hide Landmarks;
    LandmarksStep(x);
    if x == [] {
      assert x + y == y;
    } else {
      LandmarksAppend(x[1..], y);
      LandmarksStep(x + y);
      assert (x + y)[1..] == x[1..] + y;
    }
  }

  lemma {:induction false} LandmarksWithin(rows: seq<Row>)
    requires forall row :: row in rows ==> !row.Header?
    ensures Landmarks(rows) == ByteRows(rows)
  {
    if rows != [] {
      assert rows[0] in rows && forall row :: row in rows[1..] ==> row in rows;
      LandmarksWithin(rows[1..]);
    }
  }

  /** Numbers never fall, and two pages share one exactly when only pages lie between them. */
  ghost predicate Separates(rows: seq<Row>) {
    forall j, k :: 0 <= j < k < |rows| && rows[j].CodePage? && rows[k].CodePage? ==>
      rows[j].region <= rows[k].region &&
      (rows[j].region == rows[k].region <==> forall i :: j < i < k ==> rows[i].CodePage?)
  }

  ghost predicate NumbersWithin(rows: seq<Row>, lo: nat, hi: nat) {
    forall row :: row in rows && row.CodePage? ==> lo <= row.region < hi
  }

  ghost predicate NumbersFrom(rows: seq<Row>, lo: nat) {
    forall row :: row in rows && row.CodePage? ==> lo <= row.region
  }

  lemma SeparatesAppend(x: seq<Row>, y: seq<Row>, lo: nat, mid: nat)
    requires Separates(x) && Separates(y) && NumbersWithin(x, lo, mid) && NumbersFrom(y, mid) && lo <= mid
    requires y == [] || !y[0].CodePage?
    ensures Separates(x + y) && NumbersFrom(x + y, lo)
  {
    var rows := x + y;
    assert forall k :: 0 <= k < |x| ==> rows[k] == x[k];
    assert forall k :: 0 <= k < |y| ==> rows[|x| + k] == y[k];
    forall j, k | 0 <= j < k < |rows| && rows[j].CodePage? && rows[k].CodePage?
      ensures rows[j].region <= rows[k].region
      ensures rows[j].region == rows[k].region <==> forall i :: j < i < k ==> rows[i].CodePage?
    {
      if k < |x| {
        assert x[j].region <= x[k].region;
      } else if |x| <= j {
        SharedShift(x, y, j - |x|, k - |x|);
      } else {
        assert x[j] in x && y[k - |x|] in y;
        assert !rows[|x|].CodePage?;
      }
    }
  }

  lemma SharedShift(x: seq<Row>, y: seq<Row>, j: nat, k: nat)
    requires Separates(y) && j < k < |y| && y[j].CodePage? && y[k].CodePage?
    ensures y[j].region <= y[k].region
    ensures y[j].region == y[k].region <==> forall i :: |x| + j < i < |x| + k ==> (x + y)[i].CodePage?
  {
    if forall i :: |x| + j < i < |x| + k ==> (x + y)[i].CodePage? {
      forall i | j < i < k
        ensures y[i].CodePage?
      {
        assert (x + y)[|x| + i] == y[i];
      }
    }
  }

  /** The rows of one region: numbered from `next` on, separated by its data. */
  lemma RegionSeparates(src: Source, region: Region, budget: nat, next: nat)
    requires Fitting(src, region, region.address)
    ensures var rows := Landmarks(StableSort(RegionContent(src, region, budget, next)));
            Separates(rows) && NumbersWithin(rows, next, Max(next, RegionBehind(src, region, budget, next).1))
    ensures next <= RegionBehind(src, region, budget, next).1
  {
    hide Content, Behind, StableSort, Tiles, ByteRows, Landmarks, Numbered, Partition, DataRows, StringRows, ShownBytes, PageBytes;
    var content := RegionContent(src, region, budget, next);
    var rows := StableSort(content);
    RegionTiles(src, region, budget, next);
    SortKeeps(content, region.address, region.End());
    if region.executable {
      ExecutableRegionSpeaksTrue(src, region, budget, next);
      ContentFits(src, region, region.address, Min(region.mapped, DATA_BYTES_PER_REGION), budget, next, false);
    } else {
      DataRegionRows(src, region, budget, next);
    }
    LandmarksWithin(rows);
    ByteRowsWithin(rows);
  }

  /** Outside code there are neither pages nor headers. */
  lemma DataRegionRows(src: Source, region: Region, budget: nat, next: nat)
    requires Fitting(src, region, region.address) && !region.executable
    ensures forall row :: row in RegionContent(src, region, budget, next) ==>
              row.section == region.section && (row.Directive? || row.Truncated? || row.StringRow?) &&
              (row.HoldsBytes() ==> row.kind == Kind.Data && row.width == 1)
    ensures forall row :: row in RegionContent(src, region, budget, next) && row.Directive? ==> 1 <= row.size <= 16
  {
    hide Partition, Directives, StringRows;
    StringRowsExact(src.strings, region.address, region.mapped, region.section);
    NoPages(region.address, Shown(region.mapped, Min(region.mapped, DATA_BYTES_PER_REGION), budget), region.section, Kind.Data, 1);
  }

  /** In the whole listing two pages share a number exactly when they lie in one region with no data between them. */
  lemma {:induction false} ListingSeparates(src: Source, regions: seq<Region>, budget: nat, next: nat)
    requires FittingAll(src, regions)
    ensures var rows := Landmarks(AllRows(src, regions, budget, next));
            && (rows == [] || rows[0].Header?)
            && Separates(rows) && NumbersFrom(rows, next)
  {
    hide AllRows, RegionContent, RegionBehind, StableSort, Landmarks, Partition, Separates, NumbersFrom, NumbersWithin;
    if regions == [] {
      NoRegionsNoRows(src, budget, next);
      NothingSeparates(next);
    } else {
      var region, rest := regions[0], regions[1..];
      assert regions == [region] + rest;
      AllRowsStep(src, region, rest, budget, next);
      var header := Header(region.address, region.section, region.folded, region.mapped);
      HeaderSeparates(header, next);
      if region.folded {
        ListingSeparates(src, rest, budget, next);
        var tail := AllRows(src, rest, budget, next);
        LandmarksAppend([header], tail);
        SeparatesAppend([header], Landmarks(tail), next, next);
      } else {
        var behind := RegionBehind(src, region, budget, next);
        var content, tail := StableSort(RegionContent(src, region, budget, next)), AllRows(src, rest, behind.0, behind.1);
        RegionSeparates(src, region, budget, next);
        ListingSeparates(src, rest, behind.0, behind.1);
        LandmarksAppend(content, tail);
        LandmarksAppend([header], content + tail);
        SeparatesAppend(Landmarks(content), Landmarks(tail), next, behind.1);
        HeaderFirst(header, Landmarks(content) + Landmarks(tail), next);
      }
    }
  }

  lemma NothingSeparates(next: nat)
    ensures Landmarks([]) == [] && Separates([]) && NumbersFrom([], next)
  {
  }

  lemma HeaderSeparates(header: Row, next: nat)
    requires header.Header?
    ensures Landmarks([header]) == [header] && Separates([header]) && NumbersWithin([header], next, next)
  {
    assert [header][1..] == [];
  }

  lemma HeaderFirst(header: Row, rows: seq<Row>, next: nat)
    requires header.Header? && Separates(rows) && NumbersFrom(rows, next)
    ensures Separates([header] + rows) && NumbersFrom([header] + rows, next)
  {
    var all := [header] + rows;
    forall j, k | 0 <= j < k < |all| && all[j].CodePage? && all[k].CodePage?
      ensures all[j].region <= all[k].region
      ensures all[j].region == all[k].region <==> forall i :: j < i < k ==> all[i].CodePage?
    {
      SharedShift([header], rows, j - 1, k - 1);
    }
  }

  /** By address; at one address the strings that start there come before the row that holds the byte. */
  lemma OrderIs(rows: seq<Row>)
    requires InOrder(rows)
    ensures forall j, k :: 0 <= j < k < |rows| ==>
              rows[j].addr < rows[k].addr || (rows[j].addr == rows[k].addr && (rows[k].StringRow? ==> rows[j].StringRow?))
  {
    forall j, k | 0 <= j < k < |rows|
      ensures rows[j].addr < rows[k].addr || (rows[j].addr == rows[k].addr && (rows[k].StringRow? ==> rows[j].StringRow?))
    {
      assert !Before(rows[k], rows[j]);
    }
  }

  /** Whether the row is a string of the list that starts in the interval, where the map says string. */
  ghost predicate ListsString(row: Row, strings: seq<StringRef>, spans: seq<Span>, section: u32, from: nat, to: nat) {
    && row.StringRow? && row.section == section && from <= row.addr < to
    && StringRef(row.addr, row.index) in strings && KindAt(spans, row.addr) == Kind.String
  }

  /** In code, a region lists exactly the strings that start where the map says string. */
  lemma {:induction false} ContentStrings(src: Source, region: Region, at: nat, regionBudget: nat, budget: nat, next: nat, inCode: bool)
    requires Fitting(src, region, at) && (inCode ==> 0 < next)
    ensures forall row :: row in Content(src, region, at, regionBudget, budget, next, inCode) && row.StringRow? <==>
              !region.peHeader && ListsString(row, src.strings, src.spans, region.section, at, region.End())
    decreases region.End() - at
  {
    hide Content, Behind, Pages, DataRows, StringRows, StretchEnd, KindAt, WidthAt, Partition, IsData, ListsString;
    ContentStep(src, region, at, regionBudget, budget, next, inCode);
    if at == region.End() {
      NoStringsListed(src.strings, src.spans, region.section, at);
    } else {
      StretchKind(src.spans, at, region.End());
      var e := StretchEnd(src.spans, at, region.End());
      var kind := KindAt(src.spans, at);
      StretchStrings(src, region.section, at, e, region.End());
      if IsData(kind) {
        var shown := Shown(e - at, regionBudget, budget);
        NoStringsInData(at, e - at, shown, region.section, kind, WidthAt(src.spans, at));
        ContentStrings(src, region, e, regionBudget - shown, budget - shown, next, false);
      } else {
        PagesOfRegion(at, e - at, region.section, if inCode then next - 1 else next);
        StringsAreData(kind);
        ContentStrings(src, region, e, regionBudget, budget, if inCode then next else next + 1, true);
      }
    }
  }

  lemma StringsAreData(kind: Kind)
    ensures !IsData(kind) ==> kind != Kind.String
  {
  }

  lemma NoStringsListed(strings: seq<StringRef>, spans: seq<Span>, section: u32, at: nat)
    ensures forall row :: !ListsString(row, strings, spans, section, at, at)
  {
  }

  lemma NoStringsInData(at: nat, size: nat, shown: nat, section: u32, kind: Kind, width: u8)
    requires shown <= size <= U64_MAX && at + size <= U64_LIMIT
    ensures forall row :: row in DataRows(at, size, shown, section, kind, width) ==> !row.StringRow?
  {
    hide Directives;
    NoPages(at, shown, section, kind, width);
  }

  /** A stretch of strings lists its own, and any other stretch none. */
  lemma StretchStrings(src: Source, section: u32, at: nat, e: nat, to: nat)
    requires at < e <= to && forall a :: at <= a < e ==> KindAt(src.spans, a) == KindAt(src.spans, at)
    ensures KindAt(src.spans, at) == Kind.String ==>
              forall row :: row in StringRows(src.strings, at, e - at, section) <==>
                            ListsString(row, src.strings, src.spans, section, at, e)
    ensures KindAt(src.spans, at) == Kind.String ==>
              forall row :: row in StringRows(src.strings, at, e - at, section) ==> row.StringRow?
    ensures KindAt(src.spans, at) != Kind.String ==> forall row :: !ListsString(row, src.strings, src.spans, section, at, e)
    ensures forall row :: ListsString(row, src.strings, src.spans, section, at, to) <==>
              ListsString(row, src.strings, src.spans, section, at, e) || ListsString(row, src.strings, src.spans, section, e, to)
  {
    hide StringRows, KindAt;
    StringRowsExact(src.strings, at, e - at, section);
  }

  /** The headers of a listing are those of its regions, in order. */
  ghost function Headers(rows: seq<Row>): seq<Row> {
    if rows == [] then [] else (if rows[0].Header? then [rows[0]] else []) + Headers(rows[1..])
  }

  lemma HeadersStep(rows: seq<Row>)
    ensures rows == [] ==> Headers(rows) == []
    ensures rows != [] ==> Headers(rows) == (if rows[0].Header? then [rows[0]] else []) + Headers(rows[1..])
  {
  }

  lemma {:induction false} HeadersAppend(x: seq<Row>, y: seq<Row>)
    ensures Headers(x + y) == Headers(x) + Headers(y)
  {
    hide Headers;
    HeadersStep(x);
    if x == [] {
      assert x + y == y;
    } else {
      HeadersAppend(x[1..], y);
      HeadersStep(x + y);
      assert (x + y)[1..] == x[1..] + y;
    }
  }

  lemma {:induction false} NoHeaders(rows: seq<Row>)
    requires forall row :: row in rows ==> !row.Header?
    ensures Headers(rows) == []
  {
    if rows != [] {
      assert rows[0] in rows && forall row :: row in rows[1..] ==> row in rows;
      NoHeaders(rows[1..]);
    }
  }

  /** Bytes that rows account for. */
  ghost function Accounted(rows: seq<Row>): nat {
    if rows == [] then 0 else rows[0].Size() + Accounted(rows[1..])
  }

  lemma {:induction false} AccountedAppend(x: seq<Row>, y: seq<Row>)
    ensures Accounted(x + y) == Accounted(x) + Accounted(y)
  {
    if x == [] {
      assert x + y == y;
    } else {
      AccountedAppend(x[1..], y);
      assert (x + y)[1..] == x[1..] + y;
    }
  }

  lemma {:induction false} AccountedTiles(rows: seq<Row>, from: nat, to: nat)
    requires Tiles(ByteRows(rows), from, to)
    ensures Accounted(rows) == to - from
  {
    hide ByteRows;
    ByteRowsStep(rows);
    if rows != [] {
      if rows[0].HoldsBytes() {
        assert ByteRows(rows)[1..] == ByteRows(rows[1..]);
        AccountedTiles(rows[1..], from + rows[0].Size(), to);
      } else {
        assert ByteRows(rows) == ByteRows(rows[1..]);
        AccountedTiles(rows[1..], from, to);
      }
    }
  }

  ghost function UnfoldedBytes(regions: seq<Region>): nat {
    if regions == [] then 0 else (if regions[0].folded then 0 else regions[0].mapped) + UnfoldedBytes(regions[1..])
  }

  /** A listing has a header for each region, in order, and accounts for the mapped bytes of the unfolded ones. */
  lemma {:induction false} ListingCovers(src: Source, regions: seq<Region>, budget: nat, next: nat)
    requires FittingAll(src, regions)
    ensures var rows := AllRows(src, regions, budget, next);
            && |Headers(rows)| == |regions|
            && (forall k :: 0 <= k < |regions| ==>
                  Headers(rows)[k] == Header(regions[k].address, regions[k].section, regions[k].folded, regions[k].mapped))
            && Accounted(rows) == UnfoldedBytes(regions)
  {
    hide AllRows, RegionContent, RegionBehind, StableSort, Headers, Accounted, Partition;
    if regions == [] {
      NoRegionsNoRows(src, budget, next);
      NothingCovered();
    } else {
      var region, rest := regions[0], regions[1..];
      assert regions == [region] + rest;
      AllRowsStep(src, region, rest, budget, next);
      var header := Header(region.address, region.section, region.folded, region.mapped);
      var content := if region.folded then [] else StableSort(RegionContent(src, region, budget, next));
      var behind := if region.folded then (budget, next) else RegionBehind(src, region, budget, next);
      var tail := AllRows(src, rest, behind.0, behind.1);
      ListingCovers(src, rest, behind.0, behind.1);
      HeaderCovered(header);
      if region.folded {
        NothingCovered();
        assert content + tail == tail;
      } else {
        RegionCovered(src, region, budget, next);
      }
      HeadersAppend([header], content + tail);
      HeadersAppend(content, tail);
      AccountedAppend([header], content + tail);
      AccountedAppend(content, tail);
    }
  }

  lemma NothingCovered()
    ensures Headers([]) == [] && Accounted([]) == 0
  {
  }

  lemma HeaderCovered(header: Row)
    requires header.Header?
    ensures Headers([header]) == [header] && Accounted([header]) == 0
  {
    assert [header][1..] == [];
  }

  lemma RegionCovered(src: Source, region: Region, budget: nat, next: nat)
    requires Fitting(src, region, region.address)
    ensures var rows := StableSort(RegionContent(src, region, budget, next));
            Headers(rows) == [] && Accounted(rows) == region.mapped
  {
    hide Content, Behind, StableSort, Tiles, ByteRows, Headers, Accounted, Partition, DataRows, StringRows, ShownBytes, PageBytes, InOrder;
    var content := RegionContent(src, region, budget, next);
    var rows := StableSort(content);
    RegionTiles(src, region, budget, next);
    SortKeeps(content, region.address, region.End());
    if region.executable {
      ExecutableRegionSpeaksTrue(src, region, budget, next);
    } else {
      DataRegionRows(src, region, budget, next);
    }
    NoHeaders(rows);
    AccountedTiles(rows, region.address, region.End());
  }

  /** Outside code, a region lists exactly the strings that start in it. */
  lemma DataRegionListsStrings(region: Region, addresses: seq<u64>, spans: seq<Span>, budget: nat, next: nat)
    requires var src := Source(spans, ByAddress(addresses, 0)); Fitting(src, region, region.address)
    requires !region.executable && !region.peHeader
    ensures var rows := StableSort(RegionContent(Source(spans, ByAddress(addresses, 0)), region, budget, next));
            forall row :: row in rows && row.StringRow? <==>
              row.StringRow? && row.section == region.section && row.index < |addresses| &&
              row.addr == addresses[row.index] && region.address <= row.addr < region.End()
  {
    hide Content, Behind, StableSort, StringRows, Tiles, ByteRows, Directives, Partition, ByAddress, ShownBytes, PageBytes, InOrder;
    var src := Source(spans, ByAddress(addresses, 0));
    var content := RegionContent(src, region, budget, next);
    ByAddressOrdered(addresses, 0);
    RegionTiles(src, region, budget, next);
    SortKeeps(content, region.address, region.End());
    StringRowsExact(src.strings, region.address, region.mapped, region.section);
    NoPages(region.address, Shown(region.mapped, Min(region.mapped, DATA_BYTES_PER_REGION), budget), region.section, Kind.Data, 1);
  }
}
