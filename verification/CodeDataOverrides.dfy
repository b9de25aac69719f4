/** Analyst decisions laid over an automatic code/data classification. */
module CodeDataOverrides {
  import opened Machine
  import opened CodeData
  import Digest

  datatype OverrideKind = CodeOverride | DataOverride | StringOverride | PointerTableOverride | JumpTableOverride

  datatype Override = Override(address: u64, size: u64, kind: OverrideKind, typeName: string)
  {
    predicate Contains(a: int) {
      address <= a < address + size
    }
  }

  /** `available` gives the backed bytes from a mapped address to the end of its section. */
  datatype Image = Image(revision: u64, is64Bit: bool, available: u64 -> Option<u64>)

  datatype Stats = Stats(executable: u64, code: u64, data: u64, unknown: u64, strings: u64, literals: u64,
                         jumpTables: u64, pointerTables: u64, padding: u64, decodedInstructions: u64, visitedBlocks: u64)

  datatype CodeDataMap = CodeDataMap(imageRevision: u64, scopeDigest: u64, spans: seq<Span>, stats: Stats, truncated: bool)

  predicate Mapped(image: Image, d: Override) {
    && d.size != 0
    && d.address <= U64_MAX - d.size
    && image.available(d.address).Some?
    && d.size <= image.available(d.address).value
  }

  predicate HasSubstring(s: string, part: string) {
    part <= s || (s != "" && HasSubstring(s[1..], part))
  }

  function ProjectKind(kind: OverrideKind): Kind {
    match kind
    case CodeOverride => Kind.Code
    case StringOverride => Kind.String
    case PointerTableOverride => Kind.PointerTable
    case JumpTableOverride => Kind.JumpTable
    case DataOverride => Kind.Data
  }

  function ElementWidth(image: Image, d: Override): u8 {
    if d.kind == PointerTableOverride then (if image.is64Bit then 8 else 4)
    else if d.kind == JumpTableOverride then 4
    else if HasSubstring(d.typeName, "64") || d.typeName == "double" then 8
    else if HasSubstring(d.typeName, "32") || d.typeName == "float" then 4
    else if HasSubstring(d.typeName, "16") then 2
    else 1
  }

  /** What a byte under a decision says from then on. */
  function Decided(image: Image, d: Override): Attributes {
    Attributes(ProjectKind(d.kind), ElementWidth(image, d), High,
               "authoritative analyst override" + (if d.typeName == "" then "" else ": " + d.typeName))
  }

  ghost predicate OccursAt(s: string, part: string, i: int) {
    0 <= i <= |s| - |part| && s[i..i + |part|] == part
  }

  ghost predicate Occurs(s: string, part: string) {
    exists i :: OccursAt(s, part, i)
  }

  lemma {:induction false} SubstringIff(s: string, part: string)
    ensures HasSubstring(s, part) <==> Occurs(s, part)
  {
    if part <= s {
      assert OccursAt(s, part, 0);
    } else if s != "" {
      SubstringIff(s[1..], part);
      if i :| OccursAt(s[1..], part, i) {
        assert OccursAt(s, part, i + 1);
      }
      if i :| OccursAt(s, part, i) {
        assert i > 0;
        assert OccursAt(s[1..], part, i - 1);
      }
    }
  }

  /** What an analyst's decision says about a byte: its kind, with high confidence, the width its type implies, and why. */
  ghost predicate Says(image: Image, d: Override, says: Attributes) {
    && says.confidence == High
    && says.evidence == (if d.typeName == "" then "authoritative analyst override" else "authoritative analyst override: " + d.typeName)
    && match d.kind
       case CodeOverride => says.kind == Kind.Code
       case DataOverride => says.kind == Kind.Data
       case StringOverride => says.kind == Kind.String
       case PointerTableOverride => says.kind == Kind.PointerTable && says.elementWidth == if image.is64Bit then 8 else 4
       case JumpTableOverride => says.kind == Kind.JumpTable && says.elementWidth == 4
  }

  /** By type name: eight, four or two bytes where it says so, otherwise one. */
  ghost predicate WidthOfType(typeName: string, width: nat) {
    if typeName == "double" || Occurs(typeName, "64") then width == 8
    else if typeName == "float" || Occurs(typeName, "32") then width == 4
    else width == if Occurs(typeName, "16") then 2 else 1
  }

  lemma DecidedSays(image: Image, d: Override)
    ensures Says(image, d, Decided(image, d))
    ensures d.kind in {CodeOverride, DataOverride, StringOverride} ==>
              WidthOfType(d.typeName, Decided(image, d).elementWidth)
  {
    hide HasSubstring;
    SubstringIff(d.typeName, "64");
    SubstringIff(d.typeName, "32");
    SubstringIff(d.typeName, "16");
  }

  /** The decision lies on backed bytes of one section, ends before the last address, and covers the byte. */
  ghost predicate Rules(image: Image, d: Override, a: int) {
    && 0 < d.size && d.address + d.size <= 0xFFFF_FFFF_FFFF_FFFF
    && image.available(d.address).Some? && d.size <= image.available(d.address).value
    && d.address <= a < d.address + d.size
  }

  /** The last decision of the list that rules over the byte. */
  ghost predicate RulesLast(image: Image, ds: seq<Override>, k: nat, a: int) {
    k < |ds| && Rules(image, ds[k], a) && forall j :: k < j < |ds| ==> !Rules(image, ds[j], a)
  }

  lemma {:induction false} LastRules(image: Image, ds: seq<Override>, k: nat, a: int)
    requires RulesLast(image, ds, k, a)
    ensures LastDecision(image, ds, a) == Some(Decided(image, ds[k])) && AnyMapped(image, ds)
  {
    hide Decided;
    var n := |ds| - 1;
    assert ds[k] in ds && Mapped(image, ds[k]);
    if k < n {
      LastRules(image, ds[..n], k, a);
    }
  }

  lemma {:induction false} NoneRules(image: Image, ds: seq<Override>, a: int)
    requires forall j :: 0 <= j < |ds| ==> !Rules(image, ds[j], a)
    ensures LastDecision(image, ds, a) == None
  {
    if ds != [] {
      NoneRules(image, ds[..|ds| - 1], a);
    }
  }

  // ---------------------------------------------------------------------------
  // The per-byte meaning.

  /** The last mapped decision that covers a byte. */
  ghost function LastDecision(image: Image, ds: seq<Override>, a: int): Option<Attributes> {
    if ds == [] then None
    else
      var d := ds[|ds| - 1];
      if Mapped(image, d) && d.Contains(a) then Some(Decided(image, d)) else LastDecision(image, ds[..|ds| - 1], a)
  }

  ghost predicate AnyMapped(image: Image, ds: seq<Override>) {
    exists d :: d in ds && Mapped(image, d)
  }

  /** The spans a rebuild starts from: the first applied decision drops a span that ends at 2^64. */
  ghost function Kept(spans: seq<Span>): seq<Span> {
    if spans != [] && spans[|spans| - 1].End() > U64_MAX then spans[..|spans| - 1] else spans
  }

  ghost function Base(image: Image, ds: seq<Override>, spans: seq<Span>): seq<Span> {
    if AnyMapped(image, ds) then Kept(spans) else spans
  }

  /** A covered byte takes the last decision over it, and otherwise keeps what it said. */
  ghost function Effective(image: Image, ds: seq<Override>, spans: seq<Span>, a: int): Option<Attributes> {
    if At(Base(image, ds, spans), a).None? then None
    else if LastDecision(image, ds, a).Some? then LastDecision(image, ds, a)
    else At(Base(image, ds, spans), a)
  }

  // ---------------------------------------------------------------------------
  // One decision.

  /** The parts one span falls into under a decision. */
  function Pieces(span: Span, d: Override, decided: Attributes): seq<Span>
    requires 0 < span.size && span.End() <= U64_MAX && d.address + d.size <= U64_MAX
  {
    if span.End() <= d.address || span.address >= d.address + d.size then [span]
    else
      var lo := Max(span.address, d.address);
      var hi := Min(span.End(), d.address + d.size);
      (if span.address < lo then [span.(size := lo - span.address)] else [])
      + [Span(lo, hi - lo, decided)]
      + (if hi < span.End() then [span.(address := hi, size := span.End() - hi)] else [])
  }

  lemma PiecesSay(span: Span, d: Override, decided: Attributes)
    requires 0 < d.size
    requires 0 < span.size && span.End() <= U64_MAX && d.address + d.size <= U64_MAX
    ensures Partition(Pieces(span, d, decided), span.address) && EndOf(Pieces(span, d, decided), span.address) == span.End()
    ensures Total(Pieces(span, d, decided)) == span.size
    ensures forall a :: At(Pieces(span, d, decided), a) ==
                        if !span.Contains(a) then None
                        else if d.Contains(a) then Some(decided) else Some(span.attributes)
  {
    hide Partition, At, Total;
    PartitionEmpty();
    if span.End() <= d.address || span.address >= d.address + d.size {
      ConsSay(span, [], span.address);
      assert [span] + [] == [span];
    } else {
      var lo := Max(span.address, d.address);
      var hi := Min(span.End(), d.address + d.size);
      var tail := if hi < span.End() then [span.(address := hi, size := span.End() - hi)] else [];
      if hi < span.End() {
        ConsSay(tail[0], [], hi);
        assert tail == [tail[0]] + [];
      }
      var middle := [Span(lo, hi - lo, decided)] + tail;
      assert Span(lo, hi - lo, decided).End() == hi;
      PartitionNothing(hi);
      ConsSay(Span(lo, hi - lo, decided), tail, lo);
      if span.address < lo {
        assert span.(size := lo - span.address).End() == lo;
        ConsSay(span.(size := lo - span.address), middle, span.address);
      }
      assert Pieces(span, d, decided) == if span.address < lo then [span.(size := lo - span.address)] + middle else middle;
    }
  }

  lemma PartitionNothing(from: nat)
    ensures Partition([], from)
  {
  }

  lemma ConsSay(span: Span, rest: seq<Span>, from: nat)
    ensures 0 < span.size && span.End() <= U64_LIMIT && from <= span.address && Partition(rest, span.End()) ==>
            Partition([span] + rest, from)
    ensures Total([span] + rest) == span.size + Total(rest)
    ensures forall a :: At([span] + rest, a) == if span.Contains(a) then Some(span.attributes) else At(rest, a)
    ensures Partition([], span.End()) && Total([]) == 0
  {
    assert ([span] + rest)[1..] == rest;
  }

  /** What a list of spans says once a decision is laid over it. */
  ghost predicate Overlaid(next: seq<Span>, spans: seq<Span>, d: Override, decided: Attributes) {
    && Partition(next, 0)
    && EndOf(next, 0) == EndOf(spans, 0)
    && Total(next) == Total(spans)
    && forall a :: At(next, a) == if At(spans, a).Some? && d.Contains(a) then Some(decided) else At(spans, a)
  }

  lemma OverlayStep(next: seq<Span>, spans: seq<Span>, i: nat, d: Override, decided: Attributes)
    requires Partition(spans, 0) && i < |spans| && spans[i].End() <= U64_MAX && d.address + d.size <= U64_MAX
    requires Overlaid(next, spans[..i], d, decided) && 0 < spans[i].size && 0 < d.size
    ensures Overlaid(next + Pieces(spans[i], d, decided), spans[..i + 1], d, decided)
  {
    hide Partition, At, Total, Pieces;
    var span := spans[i];
    var pieces := Pieces(span, d, decided);
    PrefixStep(spans, i);
    PiecesSay(span, d, decided);
    PartitionAppend(next, pieces, 0);
    PartitionFrom(pieces, EndOf(next, 0), span.address);
    TotalAppend(next, pieces);
    PartitionOrder(spans[..i], 0);
    forall a
      ensures At(next + pieces, a) ==
              if At(spans[..i + 1], a).Some? && d.Contains(a) then Some(decided) else At(spans[..i + 1], a)
    {
      AtAppend(next, pieces, a);
    }
    assert pieces != [] by {
      if pieces == [] { TotalEmpty(); }
    }
    assert EndOf(next + pieces, 0) == EndOf(pieces, span.address);
  }

  lemma TotalEmpty()
    ensures Total([]) == 0
  {
  }

  /** A partition may start anywhere at or before its first span. */
  lemma PartitionFrom(spans: seq<Span>, from: nat, first: nat)
    requires Partition(spans, first) && from <= first
    ensures Partition(spans, from)
  {
  }

  method OverlayDecision(spans: seq<Span>, d: Override, decided: Attributes) returns (next: seq<Span>)
    requires Partition(spans, 0) && 0 < d.size && d.address + d.size <= U64_MAX
    ensures Overlaid(next, Kept(spans), d, decided) && Kept(next) == next
  {
    hide Partition, At, Total, Pieces;
    PartitionEmpty();
    PartitionOrder(spans, 0);
    next := [];
    for i := 0 to |spans|
      invariant Overlaid(next, if i < |spans| then spans[..i] else Kept(spans), d, decided)
    {
      var span := spans[i];
      if span.size == 0 || span.address > U64_MAX - span.size {
        assert i == |spans| - 1;
        continue;
      }
      OverlayStep(next, spans, i, d, decided);
      next := PushPieces(next, span, d, decided);
      assert i + 1 == |spans| ==> spans[..i + 1] == spans;
    }
    KeptIsKept(spans, next);
  }

  /** Appends the untouched span, or its prefix, the decided middle and its suffix. */
  method PushPieces(spans: seq<Span>, span: Span, d: Override, decided: Attributes) returns (next: seq<Span>)
    requires 0 < span.size && span.End() <= U64_MAX && d.address + d.size <= U64_MAX
    ensures next == spans + Pieces(span, d, decided)
  {
    var spanEnd, decisionEnd := span.address + span.size, d.address + d.size;
    if spanEnd <= d.address || span.address >= decisionEnd {
      return spans + [span];
    }
    next := spans;
    var lo := Max(span.address, d.address);
    var hi := Min(spanEnd, decisionEnd);
    if span.address < lo {
      next := next + [span.(size := lo - span.address)];
    }
    next := next + [Span(lo, hi - lo, decided)];
    if hi < spanEnd {
      next := next + [span.(address := hi, size := spanEnd - hi)];
    }
  }

  lemma KeptIsKept(spans: seq<Span>, next: seq<Span>)
    requires Partition(spans, 0) && Partition(next, 0) && EndOf(next, 0) == EndOf(Kept(spans), 0)
    ensures Partition(Kept(spans), 0) && Kept(next) == next
  {
    PartitionOrder(spans, 0);
    if spans != [] {
      PrefixStep(spans, |spans| - 1);
    }
  }

  // ---------------------------------------------------------------------------
  // Statistics.

  ghost function TotalOf(spans: seq<Span>, kind: Kind): nat {
    if spans == [] then 0
    else (if spans[0].attributes.kind == kind then spans[0].size else 0) + TotalOf(spans[1..], kind)
  }

  ghost function TotalData(spans: seq<Span>): nat {
    if spans == [] then 0
    else (if IsData(spans[0].attributes.kind) && spans[0].attributes.kind != OutOfRange then spans[0].size else 0)
         + TotalData(spans[1..])
  }

  /** Counters are 64-bit words. */
  function Word(n: nat): u64 {
    n % U64_LIMIT
  }

  function AddSpan(stats: Stats, span: Span): Stats {
    var n := span.size;
    var s := stats.(executable := Word(stats.executable + n));
    match span.attributes.kind
    case Code => s.(code := Word(s.code + n))
    case Unknown => s.(unknown := Word(s.unknown + n))
    case String => s.(data := Word(s.data + n), strings := Word(s.strings + n))
    case LiteralPool => s.(data := Word(s.data + n), literals := Word(s.literals + n))
    case JumpTable => s.(data := Word(s.data + n), jumpTables := Word(s.jumpTables + n))
    case PointerTable => s.(data := Word(s.data + n), pointerTables := Word(s.pointerTables + n))
    case Padding => s.(data := Word(s.data + n), padding := Word(s.padding + n))
    case Data => s.(data := Word(s.data + n))
    case OutOfRange => s
  }

  /** Every counter is the number of bytes of its kind. */
  ghost predicate Counts(stats: Stats, spans: seq<Span>) {
    && stats.executable == Total(spans)
    && stats.code == TotalOf(spans, Kind.Code) && stats.unknown == TotalOf(spans, Kind.Unknown)
    && stats.data == TotalData(spans)
    && stats.strings == TotalOf(spans, Kind.String) && stats.literals == TotalOf(spans, LiteralPool)
    && stats.jumpTables == TotalOf(spans, JumpTable) && stats.pointerTables == TotalOf(spans, PointerTable)
    && stats.padding == TotalOf(spans, Padding)
  }

  lemma {:induction false} TotalsAppend(spans: seq<Span>, span: Span, kind: Kind)
    ensures TotalOf(spans + [span], kind) == TotalOf(spans, kind) + (if span.attributes.kind == kind then span.size else 0)
    ensures TotalData(spans + [span]) ==
            TotalData(spans) + (if IsData(span.attributes.kind) && span.attributes.kind != OutOfRange then span.size else 0)
  {
    if spans == [] {
      assert spans + [span] == [span];
    } else {
      TotalsAppend(spans[1..], span, kind);
      assert (spans + [span])[1..] == spans[1..] + [span];
    }
  }

  lemma {:induction false} KindsAtMostTotal(spans: seq<Span>, kind: Kind)
    ensures TotalOf(spans, kind) <= Total(spans) && TotalData(spans) <= Total(spans)
  {
    if spans != [] {
      KindsAtMostTotal(spans[1..], kind);
    }
  }

  /** Counting one more span keeps every counter exact while the total fits a word. */
  lemma CountsAppend(stats: Stats, spans: seq<Span>, span: Span)
    requires Counts(stats, spans) && Total(spans) + span.size <= U64_MAX
    ensures Counts(AddSpan(stats, span), spans + [span])
  {
    hide TotalOf, TotalData, Total, Word;
    TotalAppend(spans, [span]);
    TotalOfOne(span);
    CounterStep(spans, span, Kind.Code);
    CounterStep(spans, span, Kind.Unknown);
    CounterStep(spans, span, Kind.String);
    CounterStep(spans, span, LiteralPool);
    CounterStep(spans, span, JumpTable);
    CounterStep(spans, span, PointerTable);
    CounterStep(spans, span, Padding);
  }

  lemma CounterStep(spans: seq<Span>, span: Span, kind: Kind)
    requires Total(spans) + span.size <= U64_MAX
    ensures TotalOf(spans + [span], kind) == TotalOf(spans, kind) + (if span.attributes.kind == kind then span.size else 0)
    ensures TotalData(spans + [span]) ==
            TotalData(spans) + (if IsData(span.attributes.kind) && span.attributes.kind != OutOfRange then span.size else 0)
    ensures Word(TotalOf(spans, kind) + span.size) == TotalOf(spans, kind) + span.size
    ensures Word(TotalData(spans) + span.size) == TotalData(spans) + span.size
    ensures Word(Total(spans) + span.size) == Total(spans) + span.size
  {
    hide TotalOf, TotalData, Total;
    TotalsAppend(spans, span, kind);
    KindsAtMostTotal(spans, kind);
  }

  lemma TotalOfOne(span: Span)
    ensures Total([span]) == span.size
  {
  }

  /** Code, unknown and data bytes are all the bytes there are. */
  lemma {:induction false} KindsPartitionTotal(spans: seq<Span>)
    requires forall k :: 0 <= k < |spans| ==> spans[k].attributes.kind != OutOfRange
    ensures Total(spans) == TotalOf(spans, Kind.Code) + TotalOf(spans, Kind.Unknown) + TotalData(spans)
  {
    if spans != [] {
      assert forall k :: 0 <= k < |spans[1..]| ==> spans[1..][k] == spans[k + 1];
      KindsPartitionTotal(spans[1..]);
    }
  }

  method RebuildStats(previous: Stats, spans: seq<Span>) returns (stats: Stats)
    requires Total(spans) <= U64_MAX
    ensures Counts(stats, spans)
    ensures stats.decodedInstructions == previous.decodedInstructions && stats.visitedBlocks == previous.visitedBlocks
  {
    stats := Stats(0, 0, 0, 0, 0, 0, 0, 0, 0, previous.decodedInstructions, previous.visitedBlocks);
    for i := 0 to |spans|
      invariant Counts(stats, spans[..i])
      invariant stats.decodedInstructions == previous.decodedInstructions && stats.visitedBlocks == previous.visitedBlocks
    {
      hide TotalOf, TotalData, Total;
      assert spans[..i + 1] == spans[..i] + [spans[i]];
      PrefixTotal(spans, i + 1);
      TotalAppend(spans[..i], [spans[i]]);
      TotalOfOne(spans[i]);
      CountsAppend(stats, spans[..i], spans[i]);
      stats := AddSpan(stats, spans[i]);
    }
    assert spans[..|spans|] == spans;
  }

  // ---------------------------------------------------------------------------
  // The scope digest.

  function KindCode(kind: Kind): u8 {
    match kind
    case Unknown => 0
    case Code => 1
    case String => 2
    case LiteralPool => 3
    case JumpTable => 4
    case PointerTable => 5
    case Padding => 6
    case Data => 7
    case OutOfRange => 8
  }

  function SpanWords(spans: seq<Span>): seq<u8> {
    if spans == [] then []
    else Digest.U64(spans[0].address) + (Digest.U64(spans[0].size) + (Digest.U64(KindCode(spans[0].attributes.kind)) + SpanWords(spans[1..])))
  }

  /** Schema, presence, truncation, count, then three words per span; evidence and width take no part. */
  function ScopeStream(truncated: bool, spans: seq<Span>): seq<u8>
    requires |spans| <= U64_MAX
  {
    Digest.U64(1) + (Digest.U64(1) + (Digest.U64(Digest.Flag(truncated)) + (Digest.U64(|spans|) + SpanWords(spans))))
  }

  function ScopeDigest(truncated: bool, spans: seq<Span>): u64
    requires |spans| <= U64_MAX
  {
    Digest.Fnv(Digest.FNV_OFFSET, ScopeStream(truncated, spans))
  }

  // ---------------------------------------------------------------------------
  // The whole overlay.

  /** What the scope digest binds of a span: where it lies and its kind. */
  ghost predicate SameScope(a: seq<Span>, b: seq<Span>) {
    |a| == |b| && forall k :: 0 <= k < |a| ==>
      a[k].address == b[k].address && a[k].size == b[k].size && a[k].attributes.kind == b[k].attributes.kind
  }

  lemma KindCodes(a: Kind, b: Kind)
    ensures KindCode(a) == KindCode(b) ==> a == b
  {
  }

  lemma {:induction false} SpanWordsInjective(a: seq<Span>, b: seq<Span>)
    requires |a| == |b|
    ensures SpanWords(a) == SpanWords(b) <==> SameScope(a, b)
    decreases |a|
  {
    hide Digest.U64;
    if a != [] {
      SpanWordsInjective(a[1..], b[1..]);
      assert forall k :: 0 <= k < |a| - 1 ==> a[1..][k] == a[k + 1] && b[1..][k] == b[k + 1];
      assert forall k :: 1 <= k < |a| ==> a[k] == a[1..][k - 1] && b[k] == b[1..][k - 1];
      if SpanWords(a) == SpanWords(b) {
        var x, y := Digest.U64(KindCode(a[0].attributes.kind)) + SpanWords(a[1..]), Digest.U64(KindCode(b[0].attributes.kind)) + SpanWords(b[1..]);
        Digest.U64PrefixFree(a[0].address, Digest.U64(a[0].size) + x, b[0].address, Digest.U64(b[0].size) + y);
        Digest.U64PrefixFree(a[0].size, x, b[0].size, y);
        Digest.U64PrefixFree(KindCode(a[0].attributes.kind), SpanWords(a[1..]), KindCode(b[0].attributes.kind), SpanWords(b[1..]));
        KindCodes(a[0].attributes.kind, b[0].attributes.kind);
      }
    }
  }

  /** Two maps feed the hasher the same bytes exactly when they agree on truncation and on every span's place and kind. */
  lemma ScopeStreamInjective(t: bool, a: seq<Span>, u: bool, b: seq<Span>)
    requires |a| <= U64_MAX && |b| <= U64_MAX
    ensures ScopeStream(t, a) == ScopeStream(u, b) <==> t == u && SameScope(a, b)
  {
    hide Digest.U64, SpanWords;
    if ScopeStream(t, a) == ScopeStream(u, b) {
      var x, y := Digest.U64(|a|) + SpanWords(a), Digest.U64(|b|) + SpanWords(b);
      var v, w := Digest.U64(Digest.Flag(t)) + x, Digest.U64(Digest.Flag(u)) + y;
      Digest.U64PrefixFree(1, Digest.U64(1) + v, 1, Digest.U64(1) + w);
      Digest.U64PrefixFree(1, v, 1, w);
      Digest.U64PrefixFree(Digest.Flag(t), x, Digest.Flag(u), y);
      Digest.U64PrefixFree(|a|, SpanWords(a), |b|, SpanWords(b));
    }
    if |a| == |b| {
      SpanWordsInjective(a, b);
    }
  }

  /** Schema, presence, truncation and count, then address, size and kind of the one span. */
  lemma KnownScopeStream()
    ensures ScopeStream(true, [Span(0x0102030405060708, 1, Attributes(Kind.String, 1, Low, ""))]) ==
            [1, 0, 0, 0, 0, 0, 0, 0] + [1, 0, 0, 0, 0, 0, 0, 0] + [1, 0, 0, 0, 0, 0, 0, 0] + [1, 0, 0, 0, 0, 0, 0, 0]
            + [8, 7, 6, 5, 4, 3, 2, 1] + [1, 0, 0, 0, 0, 0, 0, 0] + [2, 0, 0, 0, 0, 0, 0, 0]
  {
    hide Digest.U64;
    Digest.KnownWords();
    var s := Span(0x0102030405060708, 1, Attributes(Kind.String, 1, Low, ""));
    assert [s][1..] == [];
  }

  /** Everything the rebuilt spans promise. */
  ghost predicate Rebuilt(image: Image, ds: seq<Override>, spans: seq<Span>, result: seq<Span>) {
    && Partition(result, 0)
    && Canonical(result)
    && Total(result) == Total(Base(image, ds, spans))
    && forall a :: At(result, a) == Effective(image, ds, spans, a)
  }

  /** The same before neighbours are joined. */
  ghost predicate Decisions(image: Image, ds: seq<Override>, spans: seq<Span>, result: seq<Span>) {
    && Partition(result, 0)
    && Total(result) == Total(Base(image, ds, spans))
    && (if AnyMapped(image, ds) then Kept(result) == result else result == spans)
    && forall a :: At(result, a) == Effective(image, ds, spans, a)
  }

  lemma {:induction false} NoDecision(image: Image, ds: seq<Override>, a: int)
    requires !AnyMapped(image, ds)
    ensures LastDecision(image, ds, a) == None
  {
    if ds != [] {
      assert ds[|ds| - 1] in ds;
      assert forall d :: d in ds[..|ds| - 1] ==> d in ds;
      NoDecision(image, ds[..|ds| - 1], a);
    }
  }

  lemma SkipUnmapped(image: Image, ds: seq<Override>, d: Override, spans: seq<Span>, result: seq<Span>)
    requires Decisions(image, ds, spans, result) && !Mapped(image, d)
    ensures Decisions(image, ds + [d], spans, result)
  {
    hide Partition, At, Total;
    assert (ds + [d])[..|ds|] == ds;
    assert AnyMapped(image, ds + [d]) == AnyMapped(image, ds) by {
      if AnyMapped(image, ds) {
        var e :| e in ds && Mapped(image, e);
        assert e in ds + [d];
      }
    }
    forall a
      ensures Effective(image, ds + [d], spans, a) == Effective(image, ds, spans, a)
    {
    }
  }

  lemma ApplyMapped(image: Image, ds: seq<Override>, d: Override, spans: seq<Span>, result: seq<Span>, next: seq<Span>)
    requires Decisions(image, ds, spans, result) && Mapped(image, d)
    requires Overlaid(next, Kept(result), d, Decided(image, d)) && Kept(next) == next
    ensures Decisions(image, ds + [d], spans, next)
  {
    hide Partition, At, Total;
    assert (ds + [d])[..|ds|] == ds && d in ds + [d];
    assert AnyMapped(image, ds + [d]);
    forall a
      ensures At(next, a) == Effective(image, ds + [d], spans, a)
    {
      if !AnyMapped(image, ds) {
        NoDecision(image, ds, a);
      }
    }
  }

  method ApplyCodeDataOverrides(image: Image, overrides: seq<Override>, input: Option<CodeDataMap>) returns (out: Option<CodeDataMap>)
    requires input.Some? ==> Partition(input.value.spans, 0) && Total(input.value.spans) <= U64_MAX
    ensures out.None? <==> input.None? || (input.value.imageRevision != 0 && input.value.imageRevision != image.revision)
    ensures out.Some? && overrides == [] && input.value.scopeDigest != 0 ==> out == input
    ensures out.Some? && !(overrides == [] && input.value.scopeDigest != 0) ==>
      && Rebuilt(image, overrides, input.value.spans, out.value.spans)
      && (forall a :: MeansAt(image, overrides, input.value.spans, out.value.spans, a))
      && Counts(out.value.stats, out.value.spans)
      && |out.value.spans| <= U64_MAX
      && out.value.scopeDigest == ScopeDigest(input.value.truncated, out.value.spans)
      && out.value.imageRevision == input.value.imageRevision && out.value.truncated == input.value.truncated
      && out.value.stats.decodedInstructions == input.value.stats.decodedInstructions
      && out.value.stats.visitedBlocks == input.value.stats.visitedBlocks
  {
    hide Partition, At, Total, MeansAt;
    if input.None? || (input.value.imageRevision != 0 && input.value.imageRevision != image.revision) {
      return None;
    }
    var m := input.value;
    if overrides == [] && m.scopeDigest != 0 {
      return input;
    }
    var spans := m.spans;
    assert overrides[..0] == [];
    for i := 0 to |overrides|
      invariant Decisions(image, overrides[..i], m.spans, spans)
    {
      var d := overrides[i];
      assert overrides[..i + 1] == overrides[..i] + [d];
      if !Mapped(image, d) {
        SkipUnmapped(image, overrides[..i], d, m.spans, spans);
        continue;
      }
      var next := OverlayDecision(spans, d, Decided(image, d));
      ApplyMapped(image, overrides[..i], d, m.spans, spans, next);
      spans := next;
    }
    assert overrides[..|overrides|] == overrides;
    BaseTotal(image, overrides, m.spans);
    var merged := Coalesce(spans);
    CountAtMostTotal(merged, 0);
    var stats := RebuildStats(m.stats, merged);
    forall a
      ensures MeansAt(image, overrides, m.spans, merged, a)
    {
      RebuiltMeans(image, overrides, m.spans, merged, a);
    }
    out := Some(CodeDataMap(m.imageRevision, ScopeDigest(m.truncated, merged), merged, stats, m.truncated));
  }

  /** A span that ends before the last address holds the byte. */
  ghost predicate Classified(spans: seq<Span>, a: int) {
    exists k :: 0 <= k < |spans| && spans[k].address <= a && a < spans[k].address + spans[k].size &&
                spans[k].address + spans[k].size <= 0xFFFF_FFFF_FFFF_FFFF
  }

  /** The overlay says of a classified byte what the last decision over it says, or else what the map said. */
  ghost predicate MeansAt(image: Image, ds: seq<Override>, spans: seq<Span>, result: seq<Span>, a: int) {
    && (forall k: nat :: RulesLast(image, ds, k, a) && Classified(spans, a) ==>
          && At(result, a).Some? && Says(image, ds[k], At(result, a).value)
          && (ds[k].kind in {CodeOverride, DataOverride, StringOverride} ==>
                WidthOfType(ds[k].typeName, At(result, a).value.elementWidth)))
    && ((forall k :: 0 <= k < |ds| ==> !Rules(image, ds[k], a)) && Classified(spans, a) ==> At(result, a) == At(spans, a))
    && ((forall k :: 0 <= k < |spans| ==> !(spans[k].address <= a < spans[k].address + spans[k].size)) ==> At(result, a) == None)
  }

  lemma RebuiltMeans(image: Image, ds: seq<Override>, spans: seq<Span>, result: seq<Span>, a: int)
    requires Partition(spans, 0) && Rebuilt(image, ds, spans, result)
    ensures MeansAt(image, ds, spans, result, a)
  {
    hide Partition, At, LastDecision, Rules, Says, WidthOfType, Decided, AnyMapped;
    KeptHolds(image, ds, spans, a);
    forall k: nat | RulesLast(image, ds, k, a) && Classified(spans, a)
      ensures At(result, a) == Some(Decided(image, ds[k]))
    {
      LastRules(image, ds, k, a);
    }
    forall d: Override
      ensures Says(image, d, Decided(image, d))
      ensures d.kind in {CodeOverride, DataOverride, StringOverride} ==> WidthOfType(d.typeName, Decided(image, d).elementWidth)
    {
      DecidedSays(image, d);
    }
    if forall k :: 0 <= k < |ds| ==> !Rules(image, ds[k], a) {
      NoneRules(image, ds, a);
    }
  }

  /** The spans a rebuild starts from hold every classified byte, and say of it what the map says. */
  lemma KeptHolds(image: Image, ds: seq<Override>, spans: seq<Span>, a: int)
    requires Partition(spans, 0)
    ensures Classified(spans, a) ==> At(Base(image, ds, spans), a).Some? && At(Base(image, ds, spans), a) == At(spans, a)
    ensures (forall k :: 0 <= k < |spans| ==> !(spans[k].address <= a < spans[k].address + spans[k].size)) ==>
              At(Base(image, ds, spans), a) == None
  {
    hide Partition, At, AnyMapped;
    var base := Base(image, ds, spans);
    PartitionOrder(spans, 0);
    if Classified(spans, a) {
      var k :| 0 <= k < |spans| && spans[k].address <= a && a < spans[k].address + spans[k].size &&
               spans[k].address + spans[k].size <= 0xFFFF_FFFF_FFFF_FFFF;
      AtIndex(spans, 0, k, a);
      assert k < |base| && base[k] == spans[k];
      if base != spans {
        assert spans == base + [spans[|spans| - 1]];
        PartitionAppend(base, [spans[|spans| - 1]], 0);
      }
      AtIndex(base, 0, k, a);
    }
    if forall k :: 0 <= k < |spans| ==> !(spans[k].address <= a < spans[k].address + spans[k].size) {
      AtOutside(base, a);
    }
  }

  lemma BaseTotal(image: Image, ds: seq<Override>, spans: seq<Span>)
    ensures Total(Base(image, ds, spans)) <= Total(spans)
  {
    hide Total;
    if spans != [] {
      PrefixTotal(spans, |spans| - 1);
    }
  }

  lemma {:induction false} CountAtMostTotal(spans: seq<Span>, from: nat)
    requires Partition(spans, from)
    ensures |spans| <= Total(spans)
  {
    if spans != [] {
      CountAtMostTotal(spans[1..], spans[0].End());
    }
  }

  // ---------------------------------------------------------------------------
  // What the overlay means.

  /** Override lists with the same effect on every byte produce the identical span list. */
  lemma SameEffectSameSpans(image: Image, ds: seq<Override>, es: seq<Override>, spans: seq<Span>, a: seq<Span>, b: seq<Span>)
    requires Rebuilt(image, ds, spans, a) && Rebuilt(image, es, spans, b)
    requires forall x :: Effective(image, ds, spans, x) == Effective(image, es, spans, x)
    ensures a == b
  {
    hide Partition, At, Effective;
    CanonicalUnique(a, b, 0);
  }

  /** Coverage survives the rebuild exactly when no decision is applied or no span ends at 2^64. */
  lemma CoverageUnchangedIff(image: Image, ds: seq<Override>, spans: seq<Span>, result: seq<Span>)
    requires Partition(spans, 0) && Rebuilt(image, ds, spans, result)
    ensures (forall a :: At(result, a).Some? <==> At(spans, a).Some?) <==>
            (!AnyMapped(image, ds) || EndOf(spans, 0) <= U64_MAX)
  {
    hide Partition, At, Total, LastDecision;
    if AnyMapped(image, ds) && EndOf(spans, 0) > U64_MAX {
      var last := spans[|spans| - 1];
      PartitionOrder(spans, 0);
      AtIndex(spans, 0, |spans| - 1, last.address);
      AtOutside(Kept(spans), last.address);
      assert Effective(image, ds, spans, last.address) == None;
    }
  }

  /** The byte at the very top of the address space loses its classification to any applied decision. */
  lemma TopSpanIsLost()
    ensures
      var image := Image(0, true, a => Some(16));
      var top := Span(U64_MAX, 1, Attributes(Kind.Code, 1, Low, ""));
      var ds := [Override(0, 1, CodeOverride, "")];
      At([top], U64_MAX).Some? && Effective(image, ds, [top], U64_MAX) == None
  {
    var image := Image(0, true, a => Some(16));
    var d := Override(0, 1, CodeOverride, "");
    assert d in [d] && Mapped(image, d);
    assert AnyMapped(image, [d]);
  }
}
