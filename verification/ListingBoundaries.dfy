/**
  The three ways a caller learns whether a page starts on an instruction: chained page
  decoding, precomputed checkpoints, and a bounded walk that must land on the page.
 */
module ListingBoundaries {
  import opened Machine
  import opened ListingDecode

  const PREFIX_EXACT_BYTE_CAP: nat := 65536

  datatype Checkpoint = Checkpoint(address: u64, prefixSkip: u32)

  datatype PrefixResult = PrefixResult(complete: bool, bytesScanned: nat, checkpoints: seq<Checkpoint>)

  // ---------------------------------------------------------------------------
  // Bounded walk.

  /** The linear decode has a row boundary at `distance` and gets there in at most `maxSteps` rows. */
  ghost predicate LandsOn(c: Code, distance: nat, maxSteps: nat)
    requires c.Spans(distance, |c.bytes|)
  {
    c.Linear(0, distance).end == distance && |c.Linear(0, distance).rows| <= maxSteps
  }

  /** Rows of at most so many steps that lead from the start to exactly the target, each what the decoder says there. */
  ghost predicate Walk(d: Decoder, bytes: seq<u8>, start: u64, distance: nat, maxSteps: nat, rows: seq<Instruction>) {
    && distance <= |bytes| && |rows| <= maxSteps
    && Tiles(rows, start, start + distance)
    && forall k :: 0 <= k < |rows| ==>
         start <= rows[k].address < start + distance &&
         Shows(d, bytes[rows[k].address - start..], rows[k].address, rows[k].body)
  }

  ghost predicate Reachable(d: Decoder, bytes: seq<u8>, start: u64, distance: nat, maxSteps: nat) {
    exists rows :: Walk(d, bytes, start, distance, maxSteps, rows)
  }

  lemma WalkStays(d: Decoder, bytes: seq<u8>, start: u64, distance: nat, maxSteps: nat)
    ensures Reachable(d, bytes, start, distance, maxSteps) ==> distance <= |bytes|
  {
  }

  /** The linear decode lands on the target exactly when there is such a walk. */
  lemma LandsIffWalk(c: Code, distance: nat, maxSteps: nat)
    requires c.Spans(distance, |c.bytes|)
    ensures LandsOn(c, distance, maxSteps) <==> Reachable(c.d, c.bytes, c.base, distance, maxSteps)
  {
    hide Code.Sweep, Shows;
    var linear := c.Linear(0, distance);
    forall rows, end: nat
      ensures Decodes(c, 0, distance, |c.bytes|, rows, end) <==> rows == linear.rows && end == linear.end
    {
      SweepIsTheDecode(c, 0, distance, |c.bytes|, rows, end);
    }
    forall rows: seq<Instruction>
      ensures Walk(c.d, c.bytes, c.base, distance, maxSteps, rows) <==>
              |rows| <= maxSteps && Decodes(c, 0, distance, |c.bytes|, rows, distance)
    {
      assert forall o: nat :: o <= |c.bytes| ==> c.bytes[o..|c.bytes|] == c.bytes[o..];
    }
    if LandsOn(c, distance, maxSteps) {
      assert Decodes(c, 0, distance, |c.bytes|, linear.rows, distance);
      assert Walk(c.d, c.bytes, c.base, distance, maxSteps, linear.rows);
    }
  }

  method ListingDecodeReaches(d: Decoder, buffer: Option<seq<u8>>, from: u64, target: u64, maxSteps: nat) returns (reached: bool)
    requires buffer.Some? ==> |buffer.value| <= U64_MAX
    ensures reached <==> buffer.Some? && from <= target && target - from <= |buffer.value| &&
                         LandsOn(Code(d, buffer.value, from), target - from, maxSteps)
    ensures reached <==> buffer.Some? && from <= target &&
                         Reachable(d, buffer.value, from, target - from, maxSteps)
  {
    hide Code.Sweep, Decoder.Step, Reachable;
    if buffer.None? || from > target {
      return false;
    }
    var bytes, available := buffer.value, |buffer.value|;
    ghost var c, distance := Code(d, bytes, from), target - from;
    WalkStays(d, bytes, from, distance, maxSteps);
    if distance <= available {
      LandsIffWalk(c, distance, maxSteps);
    }
    var address, offset, steps := from, 0, 0;
    while address < target && offset < available && steps < maxSteps
      invariant offset <= available && offset <= distance && address == from + offset && steps <= maxSteps
      invariant distance <= available ==>
        && |c.Linear(0, distance).rows| == steps + |c.Linear(offset, distance).rows|
        && c.Linear(0, distance).end == c.Linear(offset, distance).end
      decreases target - address
    {
      steps := steps + 1;
      var step := d.Step(bytes[offset..], address).length;
      assert bytes[offset..] == bytes[offset..available];
      if distance <= available {
        SweepStep(c, offset, distance, available);
      }
      if step > target - address {
        return false;
      }
      address := address + step;
      offset := offset + step;
    }
    reached := address == target;
    if distance <= available && offset < distance {
      SweepStep(c, offset, distance, available);
    }
  }

  // ---------------------------------------------------------------------------
  // Checkpoints.

  /** The first 4 KiB boundary of the section grid at or after `start`; it may lie past the last address. */
  function FirstBoundary(sectionPageBase: u64, start: u64): (first: nat)
    requires sectionPageBase <= start
    ensures start <= first < start + CODE_PAGE_BYTES && (first - sectionPageBase) % CODE_PAGE_BYTES == 0
  {
    var below := sectionPageBase + (start - sectionPageBase) / CODE_PAGE_BYTES * CODE_PAGE_BYTES;
    if below < start then below + CODE_PAGE_BYTES else below
  }

  ghost predicate PrefixRequest(bytes: seq<u8>, start: u64, sectionPageBase: u64, target: u64) {
    && sectionPageBase <= start <= target
    && target - start <= PREFIX_EXACT_BYTE_CAP
    && target - start <= Min(|bytes|, ListingAddressRoom(start))
  }

  /** The skip listed for an offset is how far the rows of the decode up to there reach past it. */
  lemma SkipShown(c: Code, offset: nat, bound: nat, rows: seq<Instruction>, end: nat)
    requires c.Spans(offset, bound)
    ensures Decodes(c, 0, offset, bound, rows, end) ==> SkipAt(c, offset, bound) == end - offset
    ensures exists rows, end: nat :: Decodes(c, 0, offset, bound, rows, end)
  {
    hide Decodes, Code.Sweep;
    var swept := c.Sweep(0, offset, bound);
    SweepIsTheDecode(c, 0, offset, bound, rows, end);
    SweepIsTheDecode(c, 0, offset, bound, swept.rows, swept.end);
  }

  /** Where windows end while the target page is being approached. */
  ghost function PrefixBound(c: Code, distance: nat, lookahead: nat): nat {
    Min(|c.bytes|, distance + lookahead)
  }

  /** Bytes at `offset` that belong to a row which started before it. */
  ghost function SkipAt(c: Code, offset: nat, bound: nat): (skip: u32)
    requires c.Spans(offset, bound)
  {
    c.Sweep(0, offset, bound).end - offset
  }

  /** `complete` exactly when the target is a page boundary that was reached, or is the start itself. */
  ghost predicate ReachesTarget(start: nat, first: nat, target: nat) {
    || (first <= target && (target - first) % CODE_PAGE_BYTES == 0)
    || (target == start && first < U64_LIMIT)
  }

  /** Consecutive page boundaries from `first`, none past the target, with the skip the linear decode has there. */
  ghost predicate Listed(c: Code, first: nat, target: u64, bound: nat, checkpoints: seq<Checkpoint>)
    requires c.base <= first && c.base <= target && c.Spans(target - c.base, bound)
  {
    forall k :: 0 <= k < |checkpoints| ==>
      && first + k * CODE_PAGE_BYTES <= target
      && checkpoints[k] == Checkpoint(first + k * CODE_PAGE_BYTES,
                                      SkipAt(c, first + k * CODE_PAGE_BYTES - c.base, bound))
  }

  /** Every page boundary from `first` up to the target is listed. */
  ghost predicate Checkpointed(c: Code, first: nat, target: u64, bound: nat, checkpoints: seq<Checkpoint>)
    requires c.base <= first && c.base <= target && c.Spans(target - c.base, bound)
  {
    Listed(c, first, target, bound, checkpoints) && target < first + |checkpoints| * CODE_PAGE_BYTES
  }

  /** From a row boundary `off`, every cut inside the next row resumes at that row's end. */
  lemma NextRowEnd(c: Code, off: nat, cut: nat, bound: nat)
    requires c.Spans(cut, bound) && off < cut <= off + c.Row(off, bound).length
    requires c.Sweep(0, off, bound).end == off
    ensures c.Sweep(0, cut, bound).end == off + c.Row(off, bound).length
  {
    hide Code.Sweep, Code.Row;
    SweepSplit(c, 0, off, cut, bound);
    SweepStep(c, off, cut, bound);
  }

  lemma ListedStart(c: Code, first: nat, target: u64, bound: nat)
    requires c.base <= first && c.base <= target && c.Spans(target - c.base, bound)
    ensures Listed(c, first, target, bound, [])
    ensures first == c.base ==> Listed(c, first, target, bound, [Checkpoint(c.base, 0)])
  {
  }

  lemma LastListedIsTarget(c: Code, first: nat, target: u64, bound: nat, checkpoints: seq<Checkpoint>)
    requires c.base <= first && c.base <= target && c.Spans(target - c.base, bound)
    requires Checkpointed(c, first, target, bound, checkpoints)
    ensures (checkpoints != [] && checkpoints[|checkpoints| - 1].address == target) <==>
            (first <= target && (target - first) % CODE_PAGE_BYTES == 0)
  {
    hide SkipAt;
    var n := |checkpoints|;
    if n > 0 {
      assert checkpoints[n - 1].address == first + (n - 1) * CODE_PAGE_BYTES;
    }
  }

  /** What a request within the byte cap returns. */
  ghost predicate Answers(c: Code, first: nat, target: u64, lookahead: nat, out: PrefixResult)
    requires c.base <= first && c.base <= target && c.Spans(target - c.base, |c.bytes|)
  {
    var distance := target - c.base;
    && out.complete == ReachesTarget(c.base, first, target)
    && (if distance == 0 && c.base < first < U64_LIMIT then out.checkpoints == [Checkpoint(target, 0)]
        else Checkpointed(c, first, target, PrefixBound(c, distance, lookahead), out.checkpoints))
    && (out.complete ==> out.bytesScanned == distance)
  }

  /** The boundary to list next lies past every decoded row, unless the target has just been listed. */
  ghost predicate Pending(first: nat, start: nat, target: nat, off: nat, boundary: nat, checkpoints: seq<Checkpoint>) {
    if checkpoints != [] && checkpoints[|checkpoints| - 1].address == target then
      target - start <= off && target < first + |checkpoints| * CODE_PAGE_BYTES
    else boundary == first + |checkpoints| * CODE_PAGE_BYTES && (off < boundary - start || target < boundary)
  }

  /** Lists the boundaries the row `[off, next)` reaches; `exhausted` when the next boundary has no address. */
  method ListCrossedBoundaries(c: Code, ghost first: nat, ghost bound: nat, off: nat, next: nat, from: u64,
                               targetPage: u64, listed: seq<Checkpoint>)
    returns (checkpoints: seq<Checkpoint>, boundary: u64, exhausted: bool)
    requires c.base <= first && c.base <= targetPage && c.Spans(targetPage - c.base, bound)
    requires off < targetPage - c.base && next == off + c.Row(off, bound).length
    requires c.Sweep(0, off, bound).end == off
    requires c.base <= from && Listed(c, first, targetPage, bound, listed)
    requires Pending(first, c.base, targetPage, off, from, listed)
    ensures c.base <= boundary && Listed(c, first, targetPage, bound, checkpoints)
    ensures !exhausted ==> Pending(first, c.base, targetPage, next, boundary, checkpoints)
    ensures exhausted ==> U64_MAX < first + |checkpoints| * CODE_PAGE_BYTES &&
                          !(checkpoints != [] && checkpoints[|checkpoints| - 1].address == targetPage)
  {
    hide Code.Sweep, Code.Row;
    checkpoints, boundary, exhausted := listed, from, false;
    while boundary <= targetPage
      invariant c.base <= boundary && Listed(c, first, targetPage, bound, checkpoints)
      invariant Pending(first, c.base, targetPage, off, boundary, checkpoints)
      decreases targetPage - boundary
    {
      var boundaryOffset := boundary - c.base;
      if boundaryOffset > next { break; }
      var skip := if boundaryOffset > off && boundaryOffset < next then Min(next - boundaryOffset, U32_MAX) else 0;
      NextRowEnd(c, off, boundaryOffset, bound);
      checkpoints := checkpoints + [Checkpoint(boundary, skip)];
      if boundary == targetPage { break; }
      if boundary > U64_MAX - CODE_PAGE_BYTES {
        exhausted := true;
        break;
      }
      boundary := boundary + CODE_PAGE_BYTES;
    }
  }

  /** Decodes from the start until the target is reached, listing every boundary that is crossed. */
  method ScanToTarget(c: Code, ghost first: nat, from: u64, targetPage: u64, lookaheadBytes: u64, listed: seq<Checkpoint>)
    returns (out: PrefixResult)
    requires c.base <= first && c.base <= targetPage && c.Spans(targetPage - c.base, |c.bytes|)
    requires c.base <= from
    requires Listed(c, first, targetPage, PrefixBound(c, targetPage - c.base, lookaheadBytes), listed)
    requires Pending(first, c.base, targetPage, 0, from, listed)
    requires first < U64_LIMIT && (listed == [] <==> c.base < first)
    ensures Answers(c, first, targetPage, lookaheadBytes, out)
  {
    hide Code.Sweep, Decoder.Step, SkipAt, Listed;
    var bytes, available, distance := c.bytes, |c.bytes|, targetPage - c.base;
    ghost var bound := PrefixBound(c, distance, lookaheadBytes);
    var boundary, checkpoints := from, listed;
    var off, bytesScanned := 0, 0;
    while off < distance
      invariant off <= bound && bytesScanned == Min(off, distance) && c.base <= boundary
      invariant distance == 0 ==> checkpoints == listed
      invariant c.Sweep(0, Min(off, distance), bound).end == off
      invariant Listed(c, first, targetPage, bound, checkpoints)
      invariant Pending(first, c.base, targetPage, off, boundary, checkpoints)
      decreases distance - off
    {
      var requested := if distance - off > U64_MAX - lookaheadBytes then available - off else distance - off + lookaheadBytes;
      var decodeAvail := Min(available - off, requested);
      var next := off + c.Row(off, off + decodeAvail).length;
      NextRowEnd(c, off, Min(next, distance), bound);
      var exhausted;
      checkpoints, boundary, exhausted := ListCrossedBoundaries(c, first, bound, off, next, boundary, targetPage, checkpoints);
      if exhausted {
        LastListedIsTarget(c, first, targetPage, bound, checkpoints);
        return PrefixResult(false, bytesScanned, checkpoints);
      }
      off := next;
      bytesScanned := Min(off, distance);
    }
    if distance == 0 && checkpoints == [] {
      return PrefixResult(true, bytesScanned, [Checkpoint(targetPage, 0)]);
    }
    LastListedIsTarget(c, first, targetPage, bound, checkpoints);
    out := PrefixResult(checkpoints != [] && checkpoints[|checkpoints| - 1].address == targetPage, bytesScanned, checkpoints);
  }

  method BuildListingPrefixCheckpoints(d: Decoder, buffer: Option<seq<u8>>, startAddress: u64, sectionPageBase: u64,
                                       targetPage: u64, lookaheadBytes: u64) returns (out: PrefixResult)
    requires buffer.Some? ==> |buffer.value| <= U64_MAX
    ensures buffer.None? || !PrefixRequest(buffer.value, startAddress, sectionPageBase, targetPage) ==>
      out == PrefixResult(false, 0, [])
    ensures buffer.Some? && PrefixRequest(buffer.value, startAddress, sectionPageBase, targetPage) ==>
      Answers(Addressable(d, buffer.value, startAddress), FirstBoundary(sectionPageBase, startAddress), targetPage,
              lookaheadBytes, out)
  {
    hide Listed, SkipAt;
    out := PrefixResult(false, 0, []);
    if buffer.None? || startAddress < sectionPageBase || targetPage < startAddress {
      return;
    }
    var bytes, available := buffer.value, |buffer.value|;
    var distance := targetPage - startAddress;
    if distance > PREFIX_EXACT_BYTE_CAP || distance > available {
      return;
    }
    available := Min(available, ListingAddressRoom(startAddress));
    if distance > available {
      return;
    }
    var c := Code(d, bytes[..available], startAddress);
    ghost var first := FirstBoundary(sectionPageBase, startAddress);
    ListedStart(c, first, targetPage, PrefixBound(c, distance, lookaheadBytes));
    var pageNumber := (startAddress - sectionPageBase) / CODE_PAGE_BYTES;
    var boundary: u64 := sectionPageBase + pageNumber * CODE_PAGE_BYTES;
    if boundary < startAddress {
      if boundary > U64_MAX - CODE_PAGE_BYTES {
        return;
      }
      boundary := boundary + CODE_PAGE_BYTES;
    }
    assert boundary == first;
    var checkpoints: seq<Checkpoint> := [];
    if boundary == startAddress && boundary <= targetPage {
      checkpoints := [Checkpoint(boundary, 0)];
      if boundary <= U64_MAX - CODE_PAGE_BYTES {
        boundary := boundary + CODE_PAGE_BYTES;
      } else if boundary != targetPage {
        return PrefixResult(false, 0, checkpoints);
      }
    }
    out := ScanToTarget(c, first, boundary, targetPage, lookaheadBytes, checkpoints);
  }

  /** A request that can be answered: within 64 KiB, and inside the bytes that have addresses. */
  lemma RequestIs(bytes: seq<u8>, start: u64, sectionPageBase: u64, target: u64)
    ensures PrefixRequest(bytes, start, sectionPageBase, target) <==>
            && sectionPageBase <= start && start <= target && target - start <= 0x1_0000
            && target - start <= |bytes| && target - start <= 0xFFFF_FFFF_FFFF_FFFF
  {
  }

  /**
    The addresses an answer lists are exactly the 4 KiB boundaries of the section's grid from the start to the
    target; it is complete exactly when the target is one of them, or is the start and a boundary follows it.
   */
  lemma ListedAddresses(c: Code, sectionPageBase: u64, target: u64, lookahead: nat, out: PrefixResult)
    requires sectionPageBase <= c.base <= target && c.Spans(target - c.base, |c.bytes|)
    requires Answers(c, FirstBoundary(sectionPageBase, c.base), target, lookahead, out)
    ensures c.base < target || (target - sectionPageBase) % 0x1000 == 0 ==>
              forall a :: Lists(out.checkpoints, a) <==> c.base <= a <= target && (a - sectionPageBase) % 0x1000 == 0
    ensures c.base == target && (target - sectionPageBase) % 0x1000 != 0 && out.complete ==>
              out.checkpoints == [Checkpoint(target, 0)]
    ensures c.base < target ==> (out.complete <==> (target - sectionPageBase) % 0x1000 == 0)
    ensures c.base == target && (target - sectionPageBase) % 0x1000 == 0 ==> out.complete
  {
    hide SkipAt, FirstBoundary;
    var first := FirstBoundary(sectionPageBase, c.base);
    OnGrid(sectionPageBase, c.base, target);
    if c.base < target || (target - sectionPageBase) % 0x1000 == 0 {
      CheckpointedLists(c, first, target, PrefixBound(c, target - c.base, lookahead), out.checkpoints);
      forall a
        ensures Lists(out.checkpoints, a) <==> c.base <= a <= target && (a - sectionPageBase) % 0x1000 == 0
      {
        OnGrid(sectionPageBase, c.base, a);
      }
    }
  }

  /** The grid addresses from the start on are those that lie whole pages behind the first one. */
  lemma OnGrid(sectionPageBase: u64, start: u64, a: int)
    requires sectionPageBase <= start
    ensures var first := FirstBoundary(sectionPageBase, start);
            start <= a && (a - sectionPageBase) % 0x1000 == 0 <==> first <= a && (a - first) % CODE_PAGE_BYTES == 0
  {
    var first := FirstBoundary(sectionPageBase, start);
    var pages := (first - sectionPageBase) / 0x1000;
    assert first == sectionPageBase + pages * 0x1000;
    assert a - sectionPageBase == (a - first) + pages * 0x1000;
  }

  lemma CheckpointedLists(c: Code, first: nat, target: u64, bound: nat, checkpoints: seq<Checkpoint>)
    requires c.base <= first && c.base <= target && c.Spans(target - c.base, bound)
    requires Checkpointed(c, first, target, bound, checkpoints)
    ensures forall a :: Lists(checkpoints, a) <==> first <= a <= target && (a - first) % CODE_PAGE_BYTES == 0
  {
    hide SkipAt;
    forall a
      ensures Lists(checkpoints, a) <==> first <= a <= target && (a - first) % CODE_PAGE_BYTES == 0
    {
      if first <= a <= target && (a - first) % CODE_PAGE_BYTES == 0 {
        var k := (a - first) / CODE_PAGE_BYTES;
        assert a == first + k * CODE_PAGE_BYTES && checkpoints[k].address == a;
      }
    }
  }

  ghost predicate Lists(checkpoints: seq<Checkpoint>, a: int) {
    exists k :: 0 <= k < |checkpoints| && checkpoints[k].address == a
  }

  // ---------------------------------------------------------------------------
  // The three routes agree.

  /** What a complete or partial answer lists is what decoding page by page carries into each listed page. */
  lemma CheckpointIsChainedSkip(c: Code, m: nat, sizes: seq<u64>, distance: nat, lookahead: u64)
    requires Pages(c, 0, sizes) && Total(sizes) <= distance <= |c.bytes|
    requires EnoughLookahead(c.d, m, lookahead)
    ensures PagedDecode(c, 0, sizes, 0, lookahead).nextPrefixSkip ==
            SkipAt(c, Total(sizes), PrefixBound(c, distance, lookahead))
  {
    hide Code.Sweep, PagedDecode, Local;
    PagedDecodeIsLinear(c, m, 0, sizes, 0, lookahead);
    SweepWindow(c, m, 0, Total(sizes), PrefixBound(c, distance, lookahead), |c.bytes|);
  }

  lemma {:induction false} SweepIsShort(c: Code, off: nat, limit: nat, bound: nat)
    requires c.Spans(limit, bound) && off <= limit
    ensures |c.Sweep(off, limit, bound).rows| <= limit - off
    decreases limit - off
  {
    if off < limit {
      var next := off + c.Row(off, bound).length;
      if next <= limit {
        SweepIsShort(c, next, limit, bound);
      }
    }
  }

  /** A listed skip is zero exactly when the bounded walk, given a step per byte, lands on that page. */
  lemma CheckpointZeroIffReaches(c: Code, m: nat, offset: nat, distance: nat, lookahead: u64, maxSteps: nat)
    requires c.Valid() && offset <= distance <= |c.bytes| && offset <= maxSteps
    requires EnoughLookahead(c.d, m, lookahead)
    ensures SkipAt(c, offset, PrefixBound(c, distance, lookahead)) == 0 <==> LandsOn(c, offset, maxSteps)
  {
    hide Code.Sweep, Local;
    SweepWindow(c, m, 0, offset, PrefixBound(c, distance, lookahead), |c.bytes|);
    SweepIsShort(c, 0, offset, |c.bytes|);
  }

  /** Every checkpoint of every answer agrees with chained page decoding and with the bounded walk. */
  lemma CheckpointsAgree(c: Code, m: nat, first: nat, target: u64, lookahead: u64, out: PrefixResult,
                         k: nat, sizes: seq<u64>, maxSteps: nat)
    requires c.Valid() && c.base <= first && c.base <= target && target - c.base <= |c.bytes|
    requires EnoughLookahead(c.d, m, lookahead) && Answers(c, first, target, lookahead, out)
    requires k < |out.checkpoints|
    requires Pages(c, 0, sizes) && c.base + Total(sizes) == out.checkpoints[k].address
    requires Total(sizes) <= maxSteps
    ensures out.checkpoints[k].prefixSkip == PagedDecode(c, 0, sizes, 0, lookahead).nextPrefixSkip
    ensures out.checkpoints[k].prefixSkip == 0 <==> LandsOn(c, Total(sizes), maxSteps)
  {
    hide Code.Sweep, PagedDecode, Local;
    CheckpointIsChainedSkip(c, m, sizes, target - c.base, lookahead);
    CheckpointZeroIffReaches(c, m, Total(sizes), target - c.base, lookahead, maxSteps);
  }

  // ---------------------------------------------------------------------------
  // Buffers that reach past the last address.

  /** Windows in the part of a buffer that has addresses are windows in the buffer. */
  lemma {:induction false} SweepOfPrefix(d: Decoder, buffer: seq<u8>, start: u64, off: nat, limit: nat, bound: nat)
    requires |buffer| <= U64_MAX
    requires Addressable(d, buffer, start).Spans(limit, bound) && Code(d, buffer, start).Spans(limit, bound)
    ensures Addressable(d, buffer, start).Sweep(off, limit, bound) == Code(d, buffer, start).Sweep(off, limit, bound)
    decreases limit - off
  {
    hide Code.Sweep;
    var cut, whole := Addressable(d, buffer, start), Code(d, buffer, start);
    if off < limit {
      SliceOfPrefix(buffer, |cut.bytes|, off, bound);
      SweepStep(cut, off, limit, bound);
      SweepStep(whole, off, limit, bound);
      SweepOfPrefix(d, buffer, start, off + cut.Row(off, bound).length, limit, bound);
    }
  }

  /** The walk sees only bytes that have addresses: all of them do, or a full lookahead of them follows. */
  ghost predicate SeesAddresses(d: Decoder, m: nat, buffer: seq<u8>, start: u64, distance: nat) {
    var room := ListingAddressRoom(start);
    && |buffer| <= U64_MAX && distance <= |buffer| && distance <= room
    && (|buffer| <= room || (Local(d, m) && distance + m <= room && distance + d.invalidWidth <= room))
  }

  /** The walk over a whole buffer lands where the walk over its addressable part does. */
  lemma WalksCoincide(d: Decoder, m: nat, buffer: seq<u8>, start: u64, distance: nat, maxSteps: nat)
    requires SeesAddresses(d, m, buffer, start, distance)
    ensures LandsOn(Addressable(d, buffer, start), distance, maxSteps) <==> LandsOn(Code(d, buffer, start), distance, maxSteps)
  {
    hide Code.Sweep, Local;
    var cut, whole := Addressable(d, buffer, start), Code(d, buffer, start);
    if |buffer| <= ListingAddressRoom(start) {
      assert cut == whole;
    } else {
      SweepOfPrefix(d, buffer, start, 0, distance, |cut.bytes|);
      SweepWindow(whole, m, 0, distance, |cut.bytes|, |buffer|);
    }
  }

  /** A page call cuts a buffer's tail to the bytes that have addresses, so it may be given either tail. */
  lemma PageOfTail(d: Decoder, buffer: seq<u8>, start: u64, at: nat, size: u64, skip: u32, lookahead: u64)
    requires |buffer| <= U64_MAX && at < |Addressable(d, buffer, start).bytes|
    ensures PageOf(d, buffer[at..], start + at, size, skip, lookahead) ==
            PageOf(d, Addressable(d, buffer, start).bytes[at..], start + at, size, skip, lookahead)
  {
    hide Code.Sweep, PageSweep;
    var n := |Addressable(d, buffer, start).bytes|;
    assert Addressable(d, buffer[at..], start + at).bytes == buffer[at..n];
    assert Addressable(d, buffer[..n][at..], start + at).bytes == buffer[at..n];
  }

  /**
    What the checkpoint scan lists for a buffer, what the bounded walk answers on that buffer, and what the page
    calls carry into each listed page say the same.
   */
  lemma CallsAgree(d: Decoder, m: nat, buffer: seq<u8>, start: u64, first: nat, target: u64, lookahead: u64,
                   out: PrefixResult, k: nat, sizes: seq<u64>, maxSteps: nat)
    requires |buffer| <= U64_MAX && start <= first && start <= target
    requires SeesAddresses(d, m, buffer, start, target - start) && EnoughLookahead(d, m, lookahead)
    requires Answers(Addressable(d, buffer, start), first, target, lookahead, out) && k < |out.checkpoints|
    requires Pages(Addressable(d, buffer, start), 0, sizes) && start + Total(sizes) == out.checkpoints[k].address
    requires Total(sizes) <= maxSteps
    ensures Total(sizes) <= target - start
    ensures out.checkpoints[k].prefixSkip == 0 <==> LandsOn(Code(d, buffer, start), Total(sizes), maxSteps)
    ensures out.checkpoints[k].prefixSkip ==
            PagedDecode(Addressable(d, buffer, start), 0, sizes, 0, lookahead).nextPrefixSkip
  {
    hide Code.Sweep, PagedDecode, Local;
    CheckpointsAgree(Addressable(d, buffer, start), m, first, target, lookahead, out, k, sizes, maxSteps);
    WalksCoincide(d, m, buffer, start, Total(sizes), maxSteps);
  }
}
