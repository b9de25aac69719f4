/** Which executable bytes a cross-reference pass decodes, and which it leaves to the data map. */
module XrefPlan {
  import opened Machine
  import opened AddressSpan
  import opened CodeData
  import CodeDataOverrides
  import Digest

  datatype Section = Section(virtualAddress: u64, rawSize: u64, executable: bool)

  /** `available` gives the backed bytes from a mapped address to the end of its section. */
  datatype Binary = Binary(imageBase: u64, revision: u64, sections: seq<Section>, available: u64 -> Option<u64>)

  datatype Range = Range(address: u64, size: u64, section: u32)
  {
    function End(): nat {
      address + size
    }

    predicate Contains(a: int) {
      address <= a < End()
    }
  }

  datatype Plan = Plan(classificationApplied: bool, classificationTruncated: bool, scopeDigest: u64,
                       classifiedDataBytes: u64, decodeBytes: u64, ranges: seq<Range>)

  type Map = CodeDataOverrides.CodeDataMap

  // ---------------------------------------------------------------------------
  // One section, a byte at a time.

  /** Gaps, code and unknown bytes are decoded; every other classified byte is data. */
  ghost predicate IsDataAt(spans: seq<Span>, a: int) {
    At(spans, a).Some? && IsData(At(spans, a).value.kind)
  }

  /** Appends a range, joining it to a last range of its section that it touches. */
  function Push(ranges: seq<Range>, r: Range): seq<Range> {
    if ranges != [] && ranges[|ranges| - 1].section == r.section && ranges[|ranges| - 1].End() == r.address
       && ranges[|ranges| - 1].size + r.size <= U64_MAX
    then ranges[..|ranges| - 1] + [Range(ranges[|ranges| - 1].address, ranges[|ranges| - 1].size + r.size, r.section)]
    else ranges + [r]
  }

  /** The ranges of the bytes in `[lo, hi)`, built byte by byte. */
  ghost function Ranges(spans: seq<Span>, lo: nat, hi: nat, section: u32): (ranges: seq<Range>)
    requires lo <= hi <= U64_LIMIT && hi - lo <= U64_MAX
    ensures forall k :: 0 <= k < |ranges| ==>
      lo <= ranges[k].address && 0 < ranges[k].size && ranges[k].End() <= hi && ranges[k].section == section
    decreases hi
  {
    if hi == lo then []
    else if IsDataAt(spans, hi - 1) then Ranges(spans, lo, hi - 1, section)
    else Push(Ranges(spans, lo, hi - 1, section), Range(hi - 1, 1, section))
  }

  ghost function DataCount(spans: seq<Span>, lo: nat, hi: nat): (n: nat)
    requires lo <= hi
    ensures n <= hi - lo
    decreases hi
  {
    if hi == lo then 0 else DataCount(spans, lo, hi - 1) + (if IsDataAt(spans, hi - 1) then 1 else 0)
  }

  ghost function Bytes(ranges: seq<Range>): nat {
    if ranges == [] then 0 else Bytes(ranges[..|ranges| - 1]) + ranges[|ranges| - 1].size
  }

  ghost predicate InSome(ranges: seq<Range>, a: int) {
    exists k :: 0 <= k < |ranges| && ranges[k].Contains(a)
  }

  lemma PushHolds(ranges: seq<Range>, r: Range)
    requires forall k :: 0 <= k < |ranges| ==> ranges[k].section == r.section
    requires forall k :: 0 <= k < |ranges| ==> ranges[k].size + r.size <= U64_MAX
    ensures forall a :: InSome(Push(ranges, r), a) <==> InSome(ranges, a) || r.Contains(a)
  {
    var next := Push(ranges, r);
    var n := |next| - 1;
    assert next[..n] == ranges[..n];
    assert forall a :: next[n].Contains(a) <==> r.Contains(a) || (n < |ranges| && ranges[n].Contains(a));
    forall a
      ensures InSome(next, a) <==> InSome(ranges, a) || r.Contains(a)
    {
      if k :| 0 <= k < |ranges| && ranges[k].Contains(a) {
        assert next[k].Contains(a);
      }
      if k :| 0 <= k < n && next[k].Contains(a) {
        assert ranges[k].Contains(a);
      }
    }
  }

  lemma PushSays(ranges: seq<Range>, r: Range)
    requires forall k :: 0 <= k < |ranges| ==> ranges[k].End() <= r.address && ranges[k].section == r.section
    requires forall j, k :: 0 <= j < k < |ranges| ==> ranges[j].End() < ranges[k].address
    requires forall k :: 0 <= k < |ranges| ==> ranges[k].size + r.size <= U64_MAX
    ensures forall j, k :: 0 <= j < k < |Push(ranges, r)| ==> Push(ranges, r)[j].End() < Push(ranges, r)[k].address
    ensures Bytes(Push(ranges, r)) == Bytes(ranges) + r.size
  {
    var next := Push(ranges, r);
    var n := |next| - 1;
    assert next[..n] == ranges[..n];
  }

  lemma RangesStep(spans: seq<Span>, lo: nat, hi: nat, section: u32)
    requires lo <= hi <= U64_LIMIT && hi - lo <= U64_MAX
    ensures lo == hi ==> Ranges(spans, lo, hi, section) == [] && DataCount(spans, lo, hi) == 0
    ensures lo < hi ==> DataCount(spans, lo, hi) == DataCount(spans, lo, hi - 1) + (if IsDataAt(spans, hi - 1) then 1 else 0)
    ensures lo < hi ==>
      Ranges(spans, lo, hi, section) ==
      (if IsDataAt(spans, hi - 1) then Ranges(spans, lo, hi - 1, section)
       else Push(Ranges(spans, lo, hi - 1, section), Range(hi - 1, 1, section)))
    ensures Bytes([]) == 0 && forall a :: !InSome([], a)
  {
  }

  /** The ranges hold exactly the bytes that are not data, each byte once, and never touch. */
  lemma {:induction false} RangesExact(spans: seq<Span>, lo: nat, hi: nat, section: u32)
    requires lo <= hi <= U64_LIMIT && hi - lo <= U64_MAX
    ensures forall a :: InSome(Ranges(spans, lo, hi, section), a) <==> lo <= a < hi && !IsDataAt(spans, a)
    ensures var rs := Ranges(spans, lo, hi, section); forall j, k :: 0 <= j < k < |rs| ==> rs[j].End() < rs[k].address
    ensures Bytes(Ranges(spans, lo, hi, section)) + DataCount(spans, lo, hi) == hi - lo
    decreases hi
  {
    hide Push, IsDataAt, InSome, Bytes, Ranges, DataCount;
    RangesStep(spans, lo, hi, section);
    if lo < hi {
      RangesExact(spans, lo, hi - 1, section);
      if !IsDataAt(spans, hi - 1) {
        PushHolds(Ranges(spans, lo, hi - 1, section), Range(hi - 1, 1, section));
        PushSays(Ranges(spans, lo, hi - 1, section), Range(hi - 1, 1, section));
      }
    }
  }

  lemma PushTwice(ranges: seq<Range>, a: u64, n: u64, section: u32)
    requires 0 < n < U64_MAX && a + n <= U64_MAX
    requires forall k :: 0 <= k < |ranges| ==> ranges[k].size + n + 1 <= U64_MAX
    ensures Push(Push(ranges, Range(a, n, section)), Range(a + n, 1, section)) == Push(ranges, Range(a, n + 1, section))
  {
    var once := Push(ranges, Range(a, n, section));
    var last := |once| - 1;
    assert once[last].section == section && once[last].End() == a + n;
    var twice := Push(once, Range(a + n, 1, section));
    assert twice == once[..last] + [Range(once[last].address, once[last].size + 1, section)];
    assert once[..last] == if last < |ranges| then ranges[..last] else ranges;
  }

  /** A stretch of equal bytes is one step. */
  lemma {:induction false} Stretch(spans: seq<Span>, lo: nat, mid: nat, hi: nat, section: u32, data: bool)
    requires lo <= mid < hi <= U64_LIMIT && hi - lo <= U64_MAX
    requires forall a :: mid <= a < hi ==> IsDataAt(spans, a) == data
    ensures data ==> Ranges(spans, lo, hi, section) == Ranges(spans, lo, mid, section)
    ensures !data ==> Ranges(spans, lo, hi, section) == Push(Ranges(spans, lo, mid, section), Range(mid, hi - mid, section))
    ensures DataCount(spans, lo, hi) == DataCount(spans, lo, mid) + (if data then hi - mid else 0)
    decreases hi
  {
    hide Push, IsDataAt;
    if mid + 1 < hi {
      Stretch(spans, lo, mid, hi - 1, section, data);
      if !data {
        PushTwice(Ranges(spans, lo, mid, section), mid, hi - 1 - mid, section);
      }
    }
  }

  // ---------------------------------------------------------------------------
  // All sections.

  /** The file-backed bytes of an executable section, empty when it has none. */
  function Extent(bin: Binary, i: nat): (extent: (nat, nat))
    requires i < |bin.sections|
    ensures extent.0 <= extent.1 <= U64_LIMIT && extent.1 - extent.0 <= U64_MAX
  {
    var s := bin.sections[i];
    var base := bin.imageBase + s.virtualAddress;
    if !s.executable || base > U64_MAX || bin.available(base).None? then (0, 0)
    else
      var n := bin.available(base).value;
      (base, Min(base + Min(n, if s.rawSize != 0 then s.rawSize else n), U64_LIMIT))
  }

  /** The byte belongs to an executable section and is backed by the file, up to its raw size if it states one. */
  ghost predicate Backed(bin: Binary, i: nat, a: int)
    requires i < |bin.sections|
  {
    var s := bin.sections[i];
    var start := bin.imageBase + s.virtualAddress;
    && s.executable && start <= 0xFFFF_FFFF_FFFF_FFFF && bin.available(start).Some?
    && start <= a < 0x1_0000_0000_0000_0000
    && a - start < bin.available(start).value && (s.rawSize != 0 ==> a - start < s.rawSize)
  }

  lemma ExtentIsBacked(bin: Binary, i: nat, a: int)
    requires i < |bin.sections|
    ensures Extent(bin, i).0 <= a < Extent(bin, i).1 <==> Backed(bin, i, a)
  {
  }

  ghost function AllRanges(bin: Binary, spans: seq<Span>, n: nat): seq<Range>
    requires n <= |bin.sections| <= U32_MAX
  {
    if n == 0 then []
    else
      var e := Extent(bin, n - 1);
      AllRanges(bin, spans, n - 1) + Ranges(spans, e.0, e.1, n - 1)
  }

  ghost function AllData(bin: Binary, spans: seq<Span>, n: nat): nat
    requires n <= |bin.sections|
  {
    if n == 0 then 0
    else AllData(bin, spans, n - 1) + DataCount(spans, Extent(bin, n - 1).0, Extent(bin, n - 1).1)
  }

  ghost function AllMapped(bin: Binary, n: nat): nat
    requires n <= |bin.sections|
  {
    if n == 0 then 0 else AllMapped(bin, n - 1) + (Extent(bin, n - 1).1 - Extent(bin, n - 1).0)
  }

  predicate InRange(kind: Kind) {
    kind != OutOfRange
  }

  /** Maps from other image revisions, and malformed ones, are not applied. */
  ghost predicate Applies(bin: Binary, classification: Option<Map>) {
    && classification.Some?
    && (classification.value.imageRevision == 0 || classification.value.imageRevision == bin.revision)
    && Partition(classification.value.spans, 0)
    && forall k :: 0 <= k < |classification.value.spans| ==> InRange(classification.value.spans[k].attributes.kind)
  }

  /** The map is for this image, or for none, and is a partition of known kinds; only such a map is applied. */
  ghost predicate Usable(bin: Binary, classification: Option<Map>) {
    && classification.Some?
    && (classification.value.imageRevision == 0 || classification.value.imageRevision == bin.revision)
    && var spans := classification.value.spans;
    && (forall k :: 0 <= k < |spans| ==> 0 < spans[k].size && spans[k].address + spans[k].size <= 0x1_0000_0000_0000_0000)
    && (forall j, k :: 0 <= j < k < |spans| ==> spans[j].address + spans[j].size <= spans[k].address)
    && (forall k :: 0 <= k < |spans| ==> spans[k].attributes.kind != OutOfRange)
  }

  lemma AppliesIff(bin: Binary, classification: Option<Map>)
    ensures Applies(bin, classification) <==> Usable(bin, classification)
  {
    hide Partition;
    if classification.Some? {
      PartitionIff(classification.value.spans, 0);
    }
  }

  /** An applied map calls the byte a string, a literal pool, a table, padding or other data. */
  ghost predicate CalledData(bin: Binary, classification: Option<Map>, a: int) {
    && Usable(bin, classification)
    && exists k :: 0 <= k < |classification.value.spans| && SpanCallsData(classification.value.spans[k], a)
  }

  ghost predicate SpanCallsData(span: Span, a: int) {
    span.address <= a < span.address + span.size &&
    span.attributes.kind in {Kind.String, LiteralPool, JumpTable, PointerTable, Padding, Kind.Data}
  }

  lemma DataIsCalled(bin: Binary, classification: Option<Map>, a: int)
    ensures IsDataAt(AppliedSpans(bin, classification), a) <==> CalledData(bin, classification, a)
  {
    hide Partition, At;
    AppliesIff(bin, classification);
    var spans := AppliedSpans(bin, classification);
    if At(spans, a).Some? {
      SaysIff(spans, a, At(spans, a).value);
    }
    if k :| 0 <= k < |spans| && SpanCallsData(spans[k], a) {
      AtIndex(spans, 0, k, a);
    }
  }

  ghost function AppliedSpans(bin: Binary, classification: Option<Map>): (spans: seq<Span>)
    ensures Partition(spans, 0)
  {
    if Applies(bin, classification) then classification.value.spans else []
  }

  /** Checks every span against its predecessor; a span may end exactly at 2^64. */
  method WellFormed(spans: seq<Span>) returns (ok: bool)
    ensures ok <==> Partition(spans, 0) && forall k :: 0 <= k < |spans| ==> InRange(spans[k].attributes.kind)
  {
    hide Partition;
    PartitionEmpty();
    var previousLast, first := 0, true;
    for i := 0 to |spans|
      invariant Partition(spans[..i], 0) && forall k :: 0 <= k < i ==> InRange(spans[k].attributes.kind)
      invariant first <==> i == 0
      invariant EndOf(spans[..i], 0) == if first then 0 else previousLast + 1
    {
      var span := spans[i];
      assert spans[..i + 1] == spans[..i] + [span] && spans == spans[..i + 1] + spans[i + 1..];
      AppendSpan(spans[..i], span);
      PartitionAppend(spans[..i + 1], spans[i + 1..], 0);
      if span.size == 0 || span.size - 1 > U64_MAX - span.address || (!first && span.address <= previousLast) ||
         span.attributes.kind == OutOfRange {
        return false;
      }
      previousLast, first := span.address + span.size - 1, false;
    }
    assert spans[..|spans|] == spans;
    ok := true;
  }

  method Selected(bin: Binary, classification: Option<Map>) returns (selected: Option<Map>)
    ensures selected == if Applies(bin, classification) then classification else None
  {
    selected := classification;
    if selected.Some? && selected.value.imageRevision != 0 && selected.value.imageRevision != bin.revision {
      selected := None;
    }
    if selected.Some? {
      var ok := WellFormed(selected.value.spans);
      if !ok { selected := None; }
    }
  }

  /** Adds one decoded stretch, growing the last range when it belongs to the section and touches. */
  method AddRange(ranges: seq<Range>, address: u64, count: u64, section: u32) returns (next: seq<Range>)
    requires ranges != [] && ranges[|ranges| - 1].section == section ==> ranges[|ranges| - 1].size + count <= U64_MAX
    ensures next == Push(ranges, Range(address, count, section))
  {
    if ranges != [] {
      var back := ranges[|ranges| - 1];
      if back.section == section && back.size <= U64_MAX - back.address && back.address + back.size == address {
        return ranges[..|ranges| - 1] + [back.(size := back.size + count)];
      }
    }
    next := ranges + [Range(address, count, section)];
  }

  lemma StretchIsData(spans: seq<Span>, at: nat, hi: nat)
    requires Partition(spans, 0) && at < hi
    ensures forall a :: at <= a < StretchEnd(spans, at, hi) ==> IsDataAt(spans, a) == IsDataAt(spans, at)
    ensures IsDataAt(spans, at) == (At(spans, at).Some? && IsData(At(spans, at).value.kind))
  {
    hide At, StretchEnd, Partition;
    StretchUniform(spans, 0, at, hi);
  }

  /** One section: its ranges and its data bytes are added to what the earlier sections gave. */
  method PlanSection(spans: seq<Span>, base: u64, mapped: u64, section: u32, earlier: seq<Range>,
                     dataBytes: u64, decodeBytes: u64)
    returns (ranges: seq<Range>, data: u64, decode: u64)
    requires Partition(spans, 0) && base + mapped <= U64_LIMIT
    requires forall k :: 0 <= k < |earlier| ==> earlier[k].section < section
    ensures ranges == earlier + Ranges(spans, base, base + mapped, section)
    ensures data == Min(U64_MAX, dataBytes + DataCount(spans, base, base + mapped))
    ensures decode == Min(U64_MAX, decodeBytes + (mapped - DataCount(spans, base, base + mapped)))
  {
    hide Partition, At, Push, Ranges, DataCount, IsDataAt, StretchEnd;
    ranges, data, decode := earlier, dataBytes, decodeBytes;
    NoStretch(spans, base, section);
    var offset := 0;
    while offset < mapped
      invariant 0 <= offset <= mapped
      invariant ranges == earlier + Ranges(spans, base, base + offset, section)
      invariant data == Min(U64_MAX, dataBytes + DataCount(spans, base, base + offset))
      invariant decode == Min(U64_MAX, decodeBytes + (offset - DataCount(spans, base, base + offset)))
      decreases mapped - offset
    {
      var address := base + offset;
      var count, says := StretchAt(spans, address, mapped - offset);
      var isData := says.Some? && IsData(says.value.kind);
      StretchIsData(spans, address, base + mapped);
      Stretch(spans, base, address, address + count, section, isData);
      if isData {
        data := SaturatingAdd(data, count);
      } else {
        decode := SaturatingAdd(decode, count);
        PushBehind(earlier, Ranges(spans, base, address, section), Range(address, count, section));
        ranges := AddRange(ranges, address, count, section);
      }
      offset := offset + count;
    }
  }

  lemma NoStretch(spans: seq<Span>, base: nat, section: u32)
    requires base <= U64_LIMIT
    ensures Ranges(spans, base, base, section) == [] && DataCount(spans, base, base) == 0
  {
  }

  lemma PushBehind(earlier: seq<Range>, ranges: seq<Range>, r: Range)
    requires forall k :: 0 <= k < |earlier| ==> earlier[k].section != r.section
    ensures Push(earlier + ranges, r) == earlier + Push(ranges, r)
  {
  }

  method PlanXrefRanges(bin: Binary, classification: Option<Map>) returns (plan: Plan)
    requires |bin.sections| <= U32_MAX
    requires classification.Some? ==> |classification.value.spans| <= U64_MAX
    ensures plan.classificationApplied == Applies(bin, classification)
    ensures plan.classificationTruncated == (Applies(bin, classification) && classification.value.truncated)
    ensures plan.scopeDigest == if Applies(bin, classification)
                                then CodeDataOverrides.ScopeDigest(classification.value.truncated, classification.value.spans)
                                else Digest.Fnv(Digest.FNV_OFFSET, Digest.U64(1) + Digest.U64(0))
    ensures plan.ranges == AllRanges(bin, AppliedSpans(bin, classification), |bin.sections|)
    ensures plan.classifiedDataBytes == Min(U64_MAX, AllData(bin, AppliedSpans(bin, classification), |bin.sections|))
    ensures plan.decodeBytes ==
            Min(U64_MAX, AllMapped(bin, |bin.sections|) - AllData(bin, AppliedSpans(bin, classification), |bin.sections|))
    ensures plan.classificationApplied == Usable(bin, classification)
    ensures forall i, a :: 0 <= i < |bin.sections| ==>
              (Decoded(plan.ranges, i, a) <==> Backed(bin, i, a) && !CalledData(bin, classification, a))
    ensures plan.classifiedDataBytes == Min(0xFFFF_FFFF_FFFF_FFFF, |BytesOfPlan(bin, classification, |bin.sections|, true)|)
    ensures plan.decodeBytes == Min(0xFFFF_FFFF_FFFF_FFFF, |BytesOfPlan(bin, classification, |bin.sections|, false)|)
  {
    hide Partition, Decoded, Backed, CalledData, Usable, BytesOfPlan, Ranges, DataCount, Digest.Fnv, Digest.U64, CodeDataOverrides.ScopeDigest, Extent;
    var selected := Selected(bin, classification);
    var spans := if selected.Some? then selected.value.spans else [];
    PartitionEmpty();
    assert spans == AppliedSpans(bin, classification);
    var ranges, data, decode := [], 0, 0;
    for i := 0 to |bin.sections|
      invariant ranges == AllRanges(bin, spans, i)
      invariant forall k :: 0 <= k < |ranges| ==> ranges[k].section < i
      invariant data == Min(U64_MAX, AllData(bin, spans, i))
      invariant decode == Min(U64_MAX, AllMapped(bin, i) - AllData(bin, spans, i))
    {
      DataWithinMapped(bin, spans, i);
      var base, mapped := SectionExtent(bin, i);
      if mapped != 0 {
        ranges, data, decode := PlanSection(spans, base, mapped, i, ranges, data, decode);
      } else {
        NoStretch(spans, Extent(bin, i).0, i);
      }
    }
    plan := Plan(selected.Some?, selected.Some? && selected.value.truncated,
                 if selected.Some? then CodeDataOverrides.ScopeDigest(selected.value.truncated, selected.value.spans)
                 else Digest.Fnv(Digest.FNV_OFFSET, Digest.U64(1) + Digest.U64(0)),
                 data, decode, ranges);
    PlanMeans(bin, classification, |bin.sections|);
    AppliesIff(bin, classification);
  }

  /** Skips sections that are not executable, not addressable or not backed. */
  method SectionExtent(bin: Binary, i: nat) returns (base: u64, mapped: u64)
    requires i < |bin.sections|
    ensures mapped == Extent(bin, i).1 - Extent(bin, i).0
    ensures mapped != 0 ==> base == Extent(bin, i).0 && base + mapped == Extent(bin, i).1
  {
    var section := bin.sections[i];
    if !section.executable || section.virtualAddress > U64_MAX - bin.imageBase {
      return 0, 0;
    }
    base := bin.imageBase + section.virtualAddress;
    var available := bin.available(base);
    if available.None? {
      return base, 0;
    }
    mapped := ClampAddressableBytes(base, Min(available.value, if section.rawSize != 0 then section.rawSize else available.value));
  }

  lemma {:induction false} DataWithinMapped(bin: Binary, spans: seq<Span>, n: nat)
    requires n <= |bin.sections|
    ensures AllData(bin, spans, n) <= AllMapped(bin, n)
  {
    hide Extent, DataCount;
    if n > 0 {
      DataWithinMapped(bin, spans, n - 1);
    }
  }

  // ---------------------------------------------------------------------------
  // What a plan is for.

  /** Some range of the section holds the byte. */
  ghost predicate Decoded(ranges: seq<Range>, section: u32, a: int) {
    exists k :: 0 <= k < |ranges| && ranges[k].section == section && ranges[k].Contains(a)
  }

  /** Ranges of the section ascend with a gap between them. */
  ghost predicate Apart(ranges: seq<Range>, section: u32) {
    forall j, k :: 0 <= j < k < |ranges| && ranges[j].section == section && ranges[k].section == section ==>
      ranges[j].End() < ranges[k].address
  }

  lemma DecodedAppend(x: seq<Range>, y: seq<Range>, section: u32)
    ensures forall a :: Decoded(x + y, section, a) <==> Decoded(x, section, a) || Decoded(y, section, a)
  {
    var xy := x + y;
    assert forall k :: 0 <= k < |x| ==> xy[k] == x[k];
    assert forall k :: 0 <= k < |y| ==> xy[|x| + k] == y[k];
    forall a
      ensures Decoded(xy, section, a) <==> Decoded(x, section, a) || Decoded(y, section, a)
    {
      if Decoded(xy, section, a) {
        var k :| 0 <= k < |xy| && xy[k].section == section && xy[k].Contains(a);
        assert k >= |x| ==> y[k - |x|] == xy[k];
      }
    }
  }

  lemma OtherSection(ranges: seq<Range>, section: u32)
    requires forall k :: 0 <= k < |ranges| ==> ranges[k].section != section
    ensures forall a :: !Decoded(ranges, section, a)
    ensures forall x: seq<Range> :: Apart(x, section) ==> Apart(x + ranges, section)
    ensures forall y: seq<Range> :: Apart(y, section) ==> Apart(ranges + y, section)
  {
  }

  /**
    Every file-backed executable byte of a section is in exactly one range of that section, or it is
    data and in none; the ranges of one section never touch.
   */
  lemma {:induction false} PlanPartitions(bin: Binary, spans: seq<Span>, n: nat, i: nat)
    requires i < n <= |bin.sections| <= U32_MAX
    ensures forall a :: Decoded(AllRanges(bin, spans, n), i, a) <==>
                        Extent(bin, i).0 <= a < Extent(bin, i).1 && !IsDataAt(spans, a)
    ensures Apart(AllRanges(bin, spans, n), i)
    decreases n
  {
    hide IsDataAt, Extent, Decoded, Apart, Ranges;
    var e := Extent(bin, n - 1);
    var earlier := AllRanges(bin, spans, n - 1);
    var own := Ranges(spans, e.0, e.1, n - 1);
    DecodedAppend(earlier, own, i);
    if i < n - 1 {
      OtherSection(own, i);
      PlanPartitions(bin, spans, n - 1, i);
    } else {
      SectionsBelow(bin, spans, i);
      OtherSection(earlier, i);
      RangesOfSection(spans, e.0, e.1, i);
    }
  }

  lemma RangesOfSection(spans: seq<Span>, lo: nat, hi: nat, section: u32)
    requires lo <= hi <= U64_LIMIT && hi - lo <= U64_MAX
    ensures forall a :: Decoded(Ranges(spans, lo, hi, section), section, a) <==> lo <= a < hi && !IsDataAt(spans, a)
    ensures Apart(Ranges(spans, lo, hi, section), section)
  {
    hide IsDataAt;
    RangesExact(spans, lo, hi, section);
    forall a
      ensures Decoded(Ranges(spans, lo, hi, section), section, a) <==> InSome(Ranges(spans, lo, hi, section), a)
    {
    }
  }

  lemma {:induction false} SectionsBelow(bin: Binary, spans: seq<Span>, n: nat)
    requires n <= |bin.sections| <= U32_MAX
    ensures forall k :: 0 <= k < |AllRanges(bin, spans, n)| ==> AllRanges(bin, spans, n)[k].section < n
  {
    if n > 0 {
      SectionsBelow(bin, spans, n - 1);
    }
  }

  /** Nothing is lost between the two counters. */
  lemma {:induction false} PlanConserves(bin: Binary, spans: seq<Span>, n: nat)
    requires n <= |bin.sections| <= U32_MAX
    ensures Bytes(AllRanges(bin, spans, n)) + AllData(bin, spans, n) == AllMapped(bin, n)
  {
    hide Extent, Ranges, Bytes, DataCount;
    if n == 0 {
      NoBytes();
    } else {
      var e := Extent(bin, n - 1);
      PlanConserves(bin, spans, n - 1);
      RangesExact(spans, e.0, e.1, n - 1);
      BytesAppend(AllRanges(bin, spans, n - 1), Ranges(spans, e.0, e.1, n - 1));
    }
  }

  lemma NoBytes()
    ensures Bytes([]) == 0
  {
  }

  lemma {:induction false} BytesAppend(a: seq<Range>, b: seq<Range>)
    ensures Bytes(a + b) == Bytes(a) + Bytes(b)
  {
    if b == [] {
      assert a + b == a;
    } else {
      BytesAppend(a, b[..|b| - 1]);
      assert (a + b)[..|a + b| - 1] == a + b[..|b| - 1];
    }
  }

  /** The backed bytes of the first `n` sections that are called data, or those that are not. */
  ghost function BytesOfPlan(bin: Binary, classification: Option<Map>, n: nat, data: bool): set<(nat, int)>
    requires n <= |bin.sections|
  {
    set i: nat, a: int | i < n && 0 <= a < 0x1_0000_0000_0000_0000 && Backed(bin, i, a) && CalledData(bin, classification, a) == data
      :: (i, a)
  }

  /** The bytes of one section that are called data, or those that are not. */
  ghost function BytesOfSection(bin: Binary, classification: Option<Map>, i: nat, lo: nat, hi: nat, data: bool): set<(nat, int)>
    requires i < |bin.sections|
  {
    set a: int | lo <= a < hi && CalledData(bin, classification, a) == data :: (i, a)
  }

  lemma SectionStep(bin: Binary, classification: Option<Map>, i: nat, lo: nat, hi: nat, data: bool)
    requires i < |bin.sections|
    ensures lo == hi ==> BytesOfSection(bin, classification, i, lo, hi, data) == {}
    ensures lo < hi ==> (i, hi - 1) !in BytesOfSection(bin, classification, i, lo, hi - 1, data)
    ensures lo < hi ==>
              BytesOfSection(bin, classification, i, lo, hi, data) ==
              BytesOfSection(bin, classification, i, lo, hi - 1, data)
              + (if CalledData(bin, classification, hi - 1) == data then {(i, hi - 1)} else {})
  {
    hide CalledData;
  }

  lemma {:induction false} SectionCount(bin: Binary, classification: Option<Map>, i: nat, lo: nat, hi: nat)
    requires i < |bin.sections| && lo <= hi
    ensures |BytesOfSection(bin, classification, i, lo, hi, true)| == DataCount(AppliedSpans(bin, classification), lo, hi)
    ensures |BytesOfSection(bin, classification, i, lo, hi, false)| == hi - lo - DataCount(AppliedSpans(bin, classification), lo, hi)
    decreases hi
  {
    hide CalledData, IsDataAt, DataCount, AppliedSpans, BytesOfSection;
    var spans := AppliedSpans(bin, classification);
    SectionStep(bin, classification, i, lo, hi, true);
    SectionStep(bin, classification, i, lo, hi, false);
    NoCount(spans, lo);
    if lo < hi {
      SectionCount(bin, classification, i, lo, hi - 1);
      DataIsCalled(bin, classification, hi - 1);
      CountStep(spans, lo, hi);
    }
  }

  lemma NoCount(spans: seq<Span>, lo: nat)
    ensures DataCount(spans, lo, lo) == 0
  {
  }

  lemma CountStep(spans: seq<Span>, lo: nat, hi: nat)
    requires lo < hi
    ensures DataCount(spans, lo, hi) == DataCount(spans, lo, hi - 1) + (if IsDataAt(spans, hi - 1) then 1 else 0)
  {
  }

  lemma PlanBytesStep(bin: Binary, classification: Option<Map>, n: nat, data: bool)
    requires 0 < n <= |bin.sections|
    ensures var e := Extent(bin, n - 1);
            var own := BytesOfSection(bin, classification, n - 1, e.0, e.1, data);
            BytesOfPlan(bin, classification, n, data) == BytesOfPlan(bin, classification, n - 1, data) + own &&
            BytesOfPlan(bin, classification, n - 1, data) !! own
  {
    hide CalledData, Backed, Extent;
    var last := n - 1;
    forall a
      ensures Extent(bin, last).0 <= a < Extent(bin, last).1 <==> Backed(bin, last, a)
    {
      ExtentIsBacked(bin, last, a);
    }
  }

  /** The two counters of a plan are the sizes of those sets. */
  lemma {:induction false} PlanCounts(bin: Binary, classification: Option<Map>, n: nat)
    requires n <= |bin.sections|
    ensures AllData(bin, AppliedSpans(bin, classification), n) == |BytesOfPlan(bin, classification, n, true)|
    ensures AllMapped(bin, n) == |BytesOfPlan(bin, classification, n, true)| + |BytesOfPlan(bin, classification, n, false)|
  {
    hide CalledData, Backed, Extent, DataCount, AppliedSpans, BytesOfSection, BytesOfPlan;
    if n == 0 {
      NoPlanBytes(bin, classification);
    } else {
      var e := Extent(bin, n - 1);
      PlanCounts(bin, classification, n - 1);
      SectionCount(bin, classification, n - 1, e.0, e.1);
      PlanBytesStep(bin, classification, n, true);
      PlanBytesStep(bin, classification, n, false);
    }
  }

  lemma NoPlanBytes(bin: Binary, classification: Option<Map>)
    ensures BytesOfPlan(bin, classification, 0, true) == {} && BytesOfPlan(bin, classification, 0, false) == {}
  {
  }

  /** A byte of a section is decoded exactly when it is backed and not called data; the counters count both sorts. */
  lemma PlanMeans(bin: Binary, classification: Option<Map>, n: nat)
    requires n == |bin.sections| <= U32_MAX
    ensures forall i, a :: 0 <= i < n ==>
              (Decoded(AllRanges(bin, AppliedSpans(bin, classification), n), i, a) <==>
               Backed(bin, i, a) && !CalledData(bin, classification, a))
    ensures AllData(bin, AppliedSpans(bin, classification), n) == |BytesOfPlan(bin, classification, n, true)|
    ensures AllMapped(bin, n) - AllData(bin, AppliedSpans(bin, classification), n) == |BytesOfPlan(bin, classification, n, false)|
  {
    hide CalledData, Backed, Extent, DataCount, AppliedSpans, BytesOfPlan, Decoded, AllRanges, IsDataAt;
    var spans := AppliedSpans(bin, classification);
    PlanCounts(bin, classification, n);
    forall i, a | 0 <= i < n
      ensures Decoded(AllRanges(bin, spans, n), i, a) <==> Backed(bin, i, a) && !CalledData(bin, classification, a)
    {
      PlanPartitions(bin, spans, n, i);
      ExtentIsBacked(bin, i, a);
      DataIsCalled(bin, classification, a);
    }
  }

  lemma UnmappedSection(lo: nat, hi: nat, section: u32)
    requires lo <= hi <= U64_LIMIT && hi - lo <= U64_MAX
    ensures DataCount([], lo, hi) == 0
    ensures lo < hi ==> Ranges([], lo, hi, section) == [Range(lo, hi - lo, section)]
  {
    if lo < hi {
      Stretch([], lo, lo, hi, section, false);
    }
  }

  /** Without an applicable map every section is decoded whole. */
  lemma {:induction false} NoMapDecodesAll(bin: Binary, n: nat)
    requires n <= |bin.sections| <= U32_MAX
    ensures AllData(bin, [], n) == 0
    ensures forall i :: 0 <= i < n && Extent(bin, i).0 < Extent(bin, i).1 ==>
      Range(Extent(bin, i).0, Extent(bin, i).1 - Extent(bin, i).0, i) in AllRanges(bin, [], n)
  {
    hide Extent, Ranges, DataCount;
    if n > 0 {
      var e := Extent(bin, n - 1);
      NoMapDecodesAll(bin, n - 1);
      UnmappedSection(e.0, e.1, n - 1);
      assert forall r :: r in AllRanges(bin, [], n) <==> r in AllRanges(bin, [], n - 1) || r in Ranges([], e.0, e.1, n - 1);
    }
  }
}
