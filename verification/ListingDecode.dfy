/** Decoding of lazily materialised listing pages and its agreement with one linear decode. */
module ListingDecode {
  import opened Machine

  datatype Decoded = Decoded(length: u32, mnemonic: string, bytes: seq<u8>)

  /** `decodeOne` sees the remaining window and the address of its first byte. */
  datatype Decoder = Decoder(decodeOne: (seq<u8>, u64) -> Option<Decoded>, invalidWidth: u32)
  {
    /** The result a caller acts on: non-empty and inside the window it was given. */
    function Accepted(window: seq<u8>, address: u64): Option<Decoded> {
      match decodeOne(window, address)
      case Some(insn) => if 0 < insn.length <= |window| then Some(insn) else None
      case None => None
    }

    /** One listing row: an accepted instruction, or the `db` row that skips undecodable bytes. */
    function Step(window: seq<u8>, address: u64): (insn: Decoded)
      requires 0 < |window|
      ensures 0 < insn.length <= |window|
    {
      match Accepted(window, address)
      case Some(insn) => insn
      case None =>
        var step := Min(|window|, Max(1, invalidWidth));
        Decoded(step, "db", window[..step])
    }
  }

  /** Bytes beyond the first `m` of a window never change what the decoder accepts. */
  ghost predicate Local(d: Decoder, m: nat) {
    forall window: seq<u8>, k: nat, address: u64 {:trigger d.Accepted(window[..k], address)} ::
      m <= k <= |window| ==> d.Accepted(window[..k], address) == d.Accepted(window, address)
  }

  datatype Instruction = Instruction(address: u64, body: Decoded)

  datatype DecodedPage = DecodedPage(instructions: seq<Instruction>, nextPrefixSkip: u32)

  /** Representable bytes from `address` on; 2^64 itself is not expressible, so address 0 has 2^64 - 1. */
  function ListingAddressRoom(address: u64): (room: u64)
    ensures room == Min(0xFFFF_FFFF_FFFF_FFFF, 0x1_0000_0000_0000_0000 - address)
  {
    if address == 0 then U64_MAX else U64_MAX - address + 1
  }

  // ---------------------------------------------------------------------------
  // The linear decode.

  /** The rows of a sweep, and the first row boundary at or past its limit. */
  datatype Swept = Swept(rows: seq<Instruction>, end: nat)

  /** Addressable bytes, where they are mapped, and how they are decoded. */
  datatype Code = Code(d: Decoder, bytes: seq<u8>, base: u64)
  {
    ghost predicate Valid() {
      |bytes| <= U64_MAX && base + |bytes| <= U64_LIMIT
    }

    /** The same bytes from offset `at` on. */
    function From(at: nat): Code
      requires Valid() && at < |bytes|
    {
      Code(d, bytes[at..], base + at)
    }

    /** Every byte before `limit` has an address, and windows that end at `bound` lie in the buffer. */
    ghost predicate Spans(limit: nat, bound: nat) {
      limit <= bound <= |bytes| <= U64_MAX && base + limit <= U64_LIMIT
    }

    /** The row at `off` when the decoder's window ends at `bound`. */
    function Row(off: nat, bound: nat): (insn: Decoded)
      requires off < bound <= |bytes| && base + off < U64_LIMIT
      ensures 0 < insn.length <= bound - off
    {
      d.Step(bytes[off..bound], base + off)
    }

    /** Rows from `off` on, while they start before `limit`. */
    ghost function Sweep(off: nat, limit: nat, bound: nat): (s: Swept)
      requires Spans(limit, bound)
      ensures off >= limit ==> s == Swept([], off)
      ensures off < limit ==> limit <= s.end <= bound && s.end - limit < U32_MAX
      decreases limit - off
    {
      if off >= limit then Swept([], off)
      else
        var insn := Row(off, bound);
        var rest := Sweep(off + insn.length, limit, bound);
        Swept([Instruction(base + off, insn)] + rest.rows, rest.end)
    }

    /** The rows that start before `limit` in one decode of everything from `off` on. */
    ghost function Linear(off: nat, limit: nat): (s: Swept)
      requires Spans(limit, |bytes|)
    {
      Sweep(off, limit, |bytes|)
    }
  }

  /** The part of a buffer whose bytes have addresses. */
  function Addressable(d: Decoder, bytes: seq<u8>, address: u64): (code: Code)
    requires |bytes| <= U64_MAX
    ensures code.Valid()
  {
    Code(d, bytes[..Min(|bytes|, ListingAddressRoom(address))], address)
  }

  /** Rows follow one another without gap or overlap from `from` to `to`. */
  ghost predicate Tiles(rows: seq<Instruction>, from: nat, to: nat) {
    if rows == [] then from == to
    else rows[0].address == from && rows[0].body.length > 0 &&
         Tiles(rows[1..], from + rows[0].body.length, to)
  }

  lemma {:induction false} SweepTiles(c: Code, off: nat, limit: nat, bound: nat)
    requires c.Spans(limit, bound)
    ensures Tiles(c.Sweep(off, limit, bound).rows, c.base + off, c.base + c.Sweep(off, limit, bound).end)
    decreases limit - off
  {
    if off < limit {
      var next := off + c.Row(off, bound).length;
      SweepTiles(c, next, limit, bound);
      assert c.Sweep(off, limit, bound).rows[1..] == c.Sweep(next, limit, bound).rows;
    }
  }

  /**
    What a row shows of the window at its address: the decoder's answer when that is a non-empty instruction
    inside the window, and otherwise a `db` row as wide as the machine skips, with the bytes it skips.
   */
  ghost predicate Shows(d: Decoder, window: seq<u8>, address: u64, body: Decoded) {
    var answer := d.decodeOne(window, address);
    if answer.Some? && 0 < answer.value.length && answer.value.length <= |window| then body == answer.value
    else body.mnemonic == "db" && body.length == Min(|window|, Max(1, d.invalidWidth)) &&
         body.length <= |window| && body.bytes == window[..body.length]
  }

  lemma StepShows(d: Decoder, window: seq<u8>, address: u64)
    requires 0 < |window|
    ensures forall body :: Shows(d, window, address, body) <==> body == d.Step(window, address)
  {
  }

  /** Rows that follow one another from `off`, each starting before `limit`, up to a boundary at or past it. */
  ghost predicate Decodes(c: Code, off: nat, limit: nat, bound: nat, rows: seq<Instruction>, end: nat)
    requires c.Spans(limit, bound)
  {
    && Tiles(rows, c.base + off, c.base + end)
    && limit <= end
    && forall k :: 0 <= k < |rows| ==> ShowsAt(c, limit, bound, rows[k])
  }

  ghost predicate ShowsAt(c: Code, limit: nat, bound: nat, row: Instruction)
    requires c.Spans(limit, bound)
  {
    && c.base <= row.address < c.base + limit
    && Shows(c.d, c.bytes[row.address - c.base..bound], row.address, row.body)
  }

  /** The first row of such rows is what the decoder says there, and the others follow it. */
  lemma DecodesStep(c: Code, off: nat, limit: nat, bound: nat, rows: seq<Instruction>, end: nat)
    requires c.Spans(limit, bound) && off < limit && rows != []
    ensures Decodes(c, off, limit, bound, rows, end) <==>
            rows[0] == Instruction(c.base + off, c.Row(off, bound)) &&
            Decodes(c, off + c.Row(off, bound).length, limit, bound, rows[1..], end)
  {
    hide Decoder.Step, Shows;
    StepShows(c.d, c.bytes[off..bound], c.base + off);
    assert forall k :: 0 <= k < |rows[1..]| ==> rows[1..][k] == rows[k + 1];
    assert forall k :: 1 <= k < |rows| ==> rows[k] == rows[1..][k - 1];
  }

  lemma DecodesEnd(c: Code, off: nat, limit: nat, bound: nat, rows: seq<Instruction>, end: nat)
    requires c.Spans(limit, bound)
    ensures limit <= off ==> (Decodes(c, off, limit, bound, rows, end) <==> rows == [] && end == off)
    ensures off < limit && rows == [] ==> !Decodes(c, off, limit, bound, rows, end)
  {
    hide Shows;
    if limit <= off && rows != [] {
      assert !ShowsAt(c, limit, bound, rows[0]) || rows[0].address != c.base + off;
    }
  }

  /** A sweep gives such rows, and there are no others. */
  lemma {:induction false} SweepIsTheDecode(c: Code, off: nat, limit: nat, bound: nat, rows: seq<Instruction>, end: nat)
    requires c.Spans(limit, bound)
    ensures Decodes(c, off, limit, bound, rows, end) <==>
            rows == c.Sweep(off, limit, bound).rows && end == c.Sweep(off, limit, bound).end
    decreases limit - off
  {
    hide Code.Sweep, Code.Row, Decodes;
    DecodesEnd(c, off, limit, bound, rows, end);
    if off < limit {
      SweepStep(c, off, limit, bound);
      if rows != [] {
        var next := off + c.Row(off, bound).length;
        DecodesStep(c, off, limit, bound, rows, end);
        SweepIsTheDecode(c, next, limit, bound, rows[1..], end);
        assert rows == [rows[0]] + rows[1..];
      }
    }
  }

  /** The defining equation of a sweep, for proofs that keep its body hidden. */
  lemma SweepStep(c: Code, off: nat, limit: nat, bound: nat)
    requires c.Spans(limit, bound) && off < limit
    ensures c.Sweep(off, limit, bound).rows ==
            [Instruction(c.base + off, c.Row(off, bound))] + c.Sweep(off + c.Row(off, bound).length, limit, bound).rows
    ensures c.Sweep(off, limit, bound).end == c.Sweep(off + c.Row(off, bound).length, limit, bound).end
  {
  }

  /** A sweep may be cut at any offset and resumed at the row boundary that passes it. */
  lemma {:induction false} SweepSplit(c: Code, off: nat, mid: nat, limit: nat, bound: nat)
    requires c.Spans(limit, bound) && mid <= limit
    ensures c.Sweep(off, limit, bound).rows ==
            c.Sweep(off, mid, bound).rows + c.Sweep(c.Sweep(off, mid, bound).end, limit, bound).rows
    ensures c.Sweep(off, limit, bound).end == c.Sweep(c.Sweep(off, mid, bound).end, limit, bound).end
    decreases mid - off
  {
    hide Code.Sweep, Code.Row;
    if off < mid {
      var insn := c.Row(off, bound);
      SweepStep(c, off, mid, bound);
      SweepStep(c, off, limit, bound);
      SweepSplit(c, off + insn.length, mid, limit, bound);
      var before := c.Sweep(off + insn.length, mid, bound);
      Associate([Instruction(c.base + off, insn)], before.rows, c.Sweep(before.end, limit, bound).rows);
    }
  }

  lemma StepLocal(d: Decoder, m: nat, window: seq<u8>, k: nat, address: u64)
    requires Local(d, m) && m <= k <= |window|
    requires 0 < k && d.invalidWidth <= k
    ensures d.Step(window[..k], address) == d.Step(window, address)
  {
    assert d.Accepted(window[..k], address) == d.Accepted(window, address);
    var step := Min(k, Max(1, d.invalidWidth));
    assert window[..k][..step] == window[..step];
  }

  /** Every byte before `limit` keeps a full lookahead when windows end at `near`. */
  ghost predicate KeepsLookahead(c: Code, m: nat, limit: nat, near: nat, bound: nat) {
    && Local(c.d, m)
    && limit <= near <= bound <= |c.bytes|
    && (near < bound ==> limit + m <= near && limit + c.d.invalidWidth <= near)
  }

  /** Shortening every window changes nothing while a full lookahead remains past `limit`. */
  lemma {:induction false} SweepWindow(c: Code, m: nat, off: nat, limit: nat, near: nat, bound: nat)
    requires c.Spans(limit, bound) && KeepsLookahead(c, m, limit, near, bound)
    ensures c.Sweep(off, limit, near) == c.Sweep(off, limit, bound)
    decreases limit - off
  {
    hide Code.Sweep;
    if off < limit && near < bound {
      SweepStep(c, off, limit, near);
      SweepStep(c, off, limit, bound);
      var window := c.bytes[off..bound];
      assert c.bytes[off..near] == window[..near - off];
      StepLocal(c.d, m, window, near - off, c.base + off);
      SweepWindow(c, m, off + c.Row(off, bound).length, limit, near, bound);
    }
  }

  /** Offsets may be counted from any earlier byte of the same buffer. */
  lemma {:induction false} SweepShift(c: Code, at: nat, off: nat, limit: nat, bound: nat)
    requires c.Valid() && at < |c.bytes| && limit <= bound <= |c.bytes| - at
    ensures c.Sweep(at + off, at + limit, at + bound).rows == c.From(at).Sweep(off, limit, bound).rows
    ensures c.Sweep(at + off, at + limit, at + bound).end == at + c.From(at).Sweep(off, limit, bound).end
    decreases limit - off
  {
    hide Code.Sweep;
    if off < limit {
      SweepStep(c, at + off, at + limit, at + bound);
      SweepStep(c.From(at), off, limit, bound);
      assert c.bytes[at..][off..bound] == c.bytes[at + off..at + bound];
      SweepShift(c, at, off + c.Row(at + off, at + bound).length, limit, bound);
    }
  }

  // ---------------------------------------------------------------------------
  // One page.

  /** A page is a sweep that starts past the prefix another page owns. */
  ghost function PageSweep(c: Code, pageBytes: nat, prefixSkip: u32, lookahead: nat): DecodedPage
    requires c.Valid()
  {
    var logical := Min(|c.bytes|, pageBytes);
    var s := c.Sweep(Min(logical, prefixSkip), logical, Min(|c.bytes|, logical + lookahead));
    DecodedPage(s.rows, Max(prefixSkip, s.end) - logical)
  }

  /** Nothing is decoded, and no prefix is carried, when the page has no bytes. */
  ghost function PageOf(d: Decoder, bytes: seq<u8>, address: u64, pageBytes: u64, prefixSkip: u32, lookahead: u64): DecodedPage
    requires |bytes| <= U64_MAX
  {
    if bytes == [] || pageBytes == 0 then DecodedPage([], 0)
    else PageSweep(Addressable(d, bytes, address), pageBytes, prefixSkip, lookahead)
  }

  lemma PageOfSweep(d: Decoder, bytes: seq<u8>, address: u64, pageBytes: u64, prefixSkip: u32, lookahead: u64)
    requires |bytes| <= U64_MAX
    ensures bytes == [] || pageBytes == 0 ==>
            PageOf(d, bytes, address, pageBytes, prefixSkip, lookahead) == DecodedPage([], 0)
    ensures bytes != [] && 0 < pageBytes ==>
            var c := Addressable(d, bytes, address);
            var logical := Min(|c.bytes|, pageBytes);
            var bound := Min(|c.bytes|, logical + lookahead);
            var page := PageOf(d, bytes, address, pageBytes, prefixSkip, lookahead);
            && page.instructions == c.Sweep(Min(logical, prefixSkip), logical, bound).rows
            && page.nextPrefixSkip == Max(prefixSkip, c.Sweep(Min(logical, prefixSkip), logical, bound).end) - logical
  {
  }

  /**
    What a page shows, by the decoder alone: rows from behind the prefix to the first boundary at or past the
    page's end, in windows that reach `lookahead` bytes behind the page, and what is left over for the next page.
   */
  ghost predicate PageShows(d: Decoder, bytes: seq<u8>, address: u64, pageBytes: u64, prefixSkip: u32, lookahead: u64,
                            out: DecodedPage)
  {
    var room := Min(0xFFFF_FFFF_FFFF_FFFF, 0x1_0000_0000_0000_0000 - address);
    var available := Min(|bytes|, room);
    var logical := Min(available, pageBytes);
    && available <= U64_MAX
    && exists end: nat ::
         && Decodes(Code(d, bytes[..available], address), Min(logical, prefixSkip), logical,
                    Min(available, logical + lookahead), out.instructions, end)
         && out.nextPrefixSkip == Max(prefixSkip, end) - logical
  }

  lemma PageIsShown(d: Decoder, bytes: seq<u8>, address: u64, pageBytes: u64, prefixSkip: u32, lookahead: u64)
    requires |bytes| <= U64_MAX && bytes != [] && 0 < pageBytes
    ensures PageShows(d, bytes, address, pageBytes, prefixSkip, lookahead, PageOf(d, bytes, address, pageBytes, prefixSkip, lookahead))
  {
    hide Code.Sweep, PageOf, Decodes;
    PageOfSweep(d, bytes, address, pageBytes, prefixSkip, lookahead);
    var c := Addressable(d, bytes, address);
    var logical := Min(|c.bytes|, pageBytes);
    var bound := Min(|c.bytes|, logical + lookahead);
    var swept := c.Sweep(Min(logical, prefixSkip), logical, bound);
    SweepIsTheDecode(c, Min(logical, prefixSkip), logical, bound, swept.rows, swept.end);
  }

  method DecodeListingCodePage(d: Decoder, buffer: Option<seq<u8>>, address: u64, pageBytes: u64,
                               prefixSkip: u32, lookahead: u64) returns (out: DecodedPage)
    requires buffer.Some? ==> |buffer.value| <= U64_MAX
    ensures out == if buffer.None? then DecodedPage([], 0)
                   else PageOf(d, buffer.value, address, pageBytes, prefixSkip, lookahead)
    ensures buffer.None? || buffer.value == [] || pageBytes == 0 ==> out == DecodedPage([], 0)
    ensures buffer.Some? && buffer.value != [] && 0 < pageBytes ==>
            PageShows(d, buffer.value, address, pageBytes, prefixSkip, lookahead, out)
  {
    hide Code.Sweep, Decoder.Step, PageOf, PageShows;
    if buffer.None? {
      return DecodedPage([], 0);
    }
    var bytes, available := buffer.value, |buffer.value|;
    PageOfSweep(d, bytes, address, pageBytes, prefixSkip, lookahead);
    if available == 0 || pageBytes == 0 {
      return DecodedPage([], 0);
    }
    PageIsShown(d, bytes, address, pageBytes, prefixSkip, lookahead);
    var addressRoom := ListingAddressRoom(address);
    var logical := Min(Min(available, pageBytes), addressRoom);
    var extended := if logical > U64_MAX - lookahead then available else logical + lookahead;
    var decodeLimit := Min(Min(available, extended), addressRoom);
    ghost var c := Addressable(d, bytes, address);
    assert logical == Min(|c.bytes|, pageBytes) && decodeLimit == Min(|c.bytes|, logical + lookahead);
    var instructions, off := DecodeRows(d, bytes, address, Min(logical, prefixSkip), logical, decodeLimit);
    var nextPrefixSkip := 0;
    if off > logical {
      nextPrefixSkip := Min(off - logical, U32_MAX);
    } else if prefixSkip > logical {
      nextPrefixSkip := prefixSkip - logical;
    }
    out := DecodedPage(instructions, nextPrefixSkip);
  }

  /** The rows from `from` on, while they start before `logical`. */
  method DecodeRows(d: Decoder, bytes: seq<u8>, address: u64, from: nat, logical: nat, decodeLimit: nat)
    returns (instructions: seq<Instruction>, off: nat)
    requires |bytes| <= U64_MAX && from <= logical && Addressable(d, bytes, address).Spans(logical, decodeLimit)
    ensures instructions == Addressable(d, bytes, address).Sweep(from, logical, decodeLimit).rows
    ensures off == Addressable(d, bytes, address).Sweep(from, logical, decodeLimit).end
  {
    hide Code.Sweep, Decoder.Step;
    ghost var c := Addressable(d, bytes, address);
    ghost var all := c.Sweep(from, logical, decodeLimit);
    off, instructions := from, [];
    while off < logical
      invariant off <= decodeLimit
      invariant all.rows == instructions + c.Sweep(off, logical, decodeLimit).rows
      invariant all.end == c.Sweep(off, logical, decodeLimit).end
      decreases logical - off
    {
      if off > U64_MAX - address { break; }
      SliceOfPrefix(bytes, |c.bytes|, off, decodeLimit);
      var insn := d.Step(bytes[off..decodeLimit], address + off);
      SweepStep(c, off, logical, decodeLimit);
      instructions := instructions + [Instruction(address + off, insn)];
      off := off + insn.length;
    }
  }

  // ---------------------------------------------------------------------------
  // A run of pages.

  ghost function Total(sizes: seq<u64>): nat {
    if sizes == [] then 0 else sizes[0] + Total(sizes[1..])
  }

  /** A partition of `code[at..at + Total(sizes)]` into non-empty pages. */
  ghost predicate Pages(c: Code, at: nat, sizes: seq<u64>) {
    && c.Valid()
    && at + Total(sizes) <= |c.bytes|
    && forall k :: 0 <= k < |sizes| ==> 0 < sizes[k]
  }

  /** Decodes consecutive pages from `at`, handing each page's continuation to the next one. */
  ghost function PagedDecode(c: Code, at: nat, sizes: seq<u64>, skip: u32, lookahead: u64): DecodedPage
    requires Pages(c, at, sizes)
    decreases |sizes|
  {
    if sizes == [] then DecodedPage([], skip)
    else
      var page := PageOf(c.d, c.bytes[at..], c.base + at, sizes[0], skip, lookahead);
      var rest := PagedDecode(c, at + sizes[0], sizes[1..], page.nextPrefixSkip, lookahead);
      DecodedPage(page.instructions + rest.instructions, rest.nextPrefixSkip)
  }

  /** The lookahead covers what the decoder may examine and what a `db` row may skip. */
  ghost predicate EnoughLookahead(d: Decoder, m: nat, lookahead: nat) {
    Local(d, m) && m <= lookahead && d.invalidWidth <= lookahead
  }

  /** One page continues the linear decode of the whole buffer exactly where the previous page left it. */
  lemma PageContinuesLinear(c: Code, m: nat, at: nat, size: u64, skip: u32, lookahead: u64)
    requires c.Valid() && 0 < size && at + size <= |c.bytes| && EnoughLookahead(c.d, m, lookahead)
    ensures PageOf(c.d, c.bytes[at..], c.base + at, size, skip, lookahead).instructions ==
            c.Linear(at + skip, at + size).rows
    ensures at + size + PageOf(c.d, c.bytes[at..], c.base + at, size, skip, lookahead).nextPrefixSkip ==
            c.Linear(at + skip, at + size).end
  {
    hide Code.Sweep, Local;
    assert Addressable(c.d, c.bytes[at..], c.base + at) == c.From(at);
    var off := Min(size, skip);
    var bound := Min(|c.bytes| - at, size + lookahead);
    SweepShift(c, at, off, size, bound);
    SweepWindow(c, m, at + off, at + size, at + bound, |c.bytes|);
  }

  lemma PagedDecodeStep(c: Code, at: nat, sizes: seq<u64>, skip: u32, lookahead: u64)
    requires Pages(c, at, sizes)
    ensures sizes == [] ==> PagedDecode(c, at, sizes, skip, lookahead) == DecodedPage([], skip)
    ensures sizes != [] ==>
      var page := PageOf(c.d, c.bytes[at..], c.base + at, sizes[0], skip, lookahead);
      && Pages(c, at + sizes[0], sizes[1..])
      && PagedDecode(c, at, sizes, skip, lookahead).instructions ==
         page.instructions + PagedDecode(c, at + sizes[0], sizes[1..], page.nextPrefixSkip, lookahead).instructions
      && PagedDecode(c, at, sizes, skip, lookahead).nextPrefixSkip ==
         PagedDecode(c, at + sizes[0], sizes[1..], page.nextPrefixSkip, lookahead).nextPrefixSkip
  {
  }

  /** Page-by-page decoding of a run is the linear decode of that run. */
  lemma {:induction false} PagedDecodeIsLinear(c: Code, m: nat, at: nat, sizes: seq<u64>, skip: u32, lookahead: u64)
    requires Pages(c, at, sizes) && EnoughLookahead(c.d, m, lookahead)
    ensures PagedDecode(c, at, sizes, skip, lookahead).instructions == c.Linear(at + skip, at + Total(sizes)).rows
    ensures at + Total(sizes) + PagedDecode(c, at, sizes, skip, lookahead).nextPrefixSkip ==
            c.Linear(at + skip, at + Total(sizes)).end
    decreases |sizes|
  {
    hide PagedDecode, PageOf, Code.Sweep, Local;
    PagedDecodeStep(c, at, sizes, skip, lookahead);
    if sizes == [] {
    } else {
      var mid, run := at + sizes[0], at + Total(sizes);
      var page := PageOf(c.d, c.bytes[at..], c.base + at, sizes[0], skip, lookahead);
      PageContinuesLinear(c, m, at, sizes[0], skip, lookahead);
      PagedDecodeIsLinear(c, m, mid, sizes[1..], page.nextPrefixSkip, lookahead);
      SweepSplit(c, at + skip, mid, run, |c.bytes|);
    }
  }

  /** The same rows and continuation come from a single call whose page is the whole run. */
  lemma PagedDecodeIsOnePage(c: Code, m: nat, sizes: seq<u64>, skip: u32, lookahead: u64)
    requires Pages(c, 0, sizes) && sizes != [] && EnoughLookahead(c.d, m, lookahead)
    ensures Total(sizes) < U64_LIMIT
    ensures PagedDecode(c, 0, sizes, skip, lookahead) ==
            PageOf(c.d, c.bytes, c.base, Total(sizes), skip, lookahead)
  {
    hide PagedDecode, PageOf, Code.Linear, Local;
    PagedDecodeIsLinear(c, m, 0, sizes, skip, lookahead);
    PageContinuesLinear(c, m, 0, Total(sizes), skip, lookahead);
    assert c.bytes[0..] == c.bytes;
  }
}
