/** Which pages of a live image were really captured, and whether a dump of it is complete. */
module CapturedPages {
  import opened Machine

  const PAGE: nat := 0x1000
  const CHUNK: nat := 0x10_0000

  datatype Region = Region(base: u64, size: u64, read: bool)
  {
    predicate Usable() {
      read && size != 0 && base <= U64_MAX - size
    }

    predicate Holds(address: int) {
      Usable() && base <= address < base + size
    }
  }

  /** The answer to the call of this number: at most the wanted bytes, from the front. */
  datatype Debugger = Debugger(regions: seq<Region>, answer: (nat, nat, nat) -> seq<u8>)
  {
    ghost predicate Sound() {
      forall call, at, want :: |answer(call, at, want)| <= want
    }

    ghost predicate AlwaysAnswers() {
      forall call, at, want :: |answer(call, at, want)| == want
    }
  }

  /** A successful read: where its bytes went in the image, and which question it answered. */
  datatype Read = Read(lo: nat, bytes: seq<u8>, region: nat, call: nat, want: nat)
  {
    function Hi(): nat {
      lo + |bytes|
    }

    predicate Contains(o: int) {
      lo <= o < Hi()
    }
  }

  // ---------------------------------------------------------------------------
  // Coverage.

  /** The image byte was delivered by some read. */
  ghost predicate Captured(log: seq<Read>, o: int) {
    exists k :: 0 <= k < |log| && log[k].Contains(o)
  }

  function Overlap(lo: int, hi: int, first: int, last: int): nat {
    Max(0, Min(hi, last) - Max(lo, first))
  }

  /** How many bytes the reads delivered into an interval, repetitions included. */
  ghost function Delivered(log: seq<Read>, lo: nat, hi: nat): nat {
    if log == [] then 0
    else
      var last := log[|log| - 1];
      Delivered(log[..|log| - 1], lo, hi) + Overlap(last.lo, last.Hi(), lo, hi)
  }

  ghost function CapturedCount(log: seq<Read>, lo: nat, hi: nat): (n: nat)
    requires lo <= hi
    ensures n <= hi - lo
    decreases hi
  {
    if lo == hi then 0 else CapturedCount(log, lo, hi - 1) + (if Captured(log, hi - 1) then 1 else 0)
  }

  ghost predicate Disjoint(log: seq<Read>) {
    forall j, k :: 0 <= j < k < |log| ==> log[j].Hi() <= log[k].lo || log[k].Hi() <= log[j].lo
  }

  lemma {:induction false} CountAll(log: seq<Read>, lo: nat, hi: nat)
    requires lo <= hi
    ensures CapturedCount(log, lo, hi) == hi - lo <==> forall o :: lo <= o < hi ==> Captured(log, o)
    decreases hi
  {
    if lo < hi {
      CountAll(log, lo, hi - 1);
    }
  }

  lemma {:induction false} CountNone(lo: nat, hi: nat)
    requires lo <= hi
    ensures CapturedCount([], lo, hi) == 0
    decreases hi
  {
    if lo < hi {
      CountNone(lo, hi - 1);
    }
  }

  lemma CapturedBy(log: seq<Read>, r: Read, o: int)
    ensures Captured(log + [r], o) <==> Captured(log, o) || r.Contains(o)
  {
    if r.Contains(o) {
      assert (log + [r])[|log|] == r;
    }
    if k :| 0 <= k < |log| && log[k].Contains(o) {
      assert (log + [r])[k] == log[k];
    }
  }

  lemma {:induction false} CountAppend(log: seq<Read>, r: Read, lo: nat, hi: nat)
    requires lo <= hi && forall o :: r.Contains(o) ==> !Captured(log, o)
    ensures CapturedCount(log + [r], lo, hi) == CapturedCount(log, lo, hi) + Overlap(r.lo, r.Hi(), lo, hi)
    decreases hi
  {
    hide Captured;
    if lo < hi {
      CountAppend(log, r, lo, hi - 1);
      CapturedBy(log, r, hi - 1);
    }
  }

  /** Reads that do not overlap deliver each captured byte once. */
  lemma {:induction false} DisjointCountsOnce(log: seq<Read>, lo: nat, hi: nat)
    requires Disjoint(log) && lo <= hi
    ensures Delivered(log, lo, hi) == CapturedCount(log, lo, hi)
  {
    if log == [] {
      CountNone(lo, hi);
    } else {
      var n := |log| - 1;
      DisjointCountsOnce(log[..n], lo, hi);
      assert log == log[..n] + [log[n]];
      forall o | log[n].Contains(o)
        ensures !Captured(log[..n], o)
      {
      }
      CountAppend(log[..n], log[n], lo, hi);
    }
  }

  /** Without overlap a page's count is complete exactly when each of its bytes was captured. */
  lemma CompleteIffCaptured(log: seq<Read>, lo: nat, hi: nat)
    requires Disjoint(log) && lo <= hi
    ensures Delivered(log, lo, hi) <= hi - lo
    ensures Delivered(log, lo, hi) == hi - lo <==> forall o :: lo <= o < hi ==> Captured(log, o)
  {
    DisjointCountsOnce(log, lo, hi);
    CountAll(log, lo, hi);
  }

  // ---------------------------------------------------------------------------
  // Reading.

  /** What the image holds at an offset: the byte of the last read that reached it. */
  ghost function Content(log: seq<Read>, o: nat): u8 {
    if log == [] then 0
    else
      var last := log[|log| - 1];
      if last.Contains(o) then last.bytes[o - last.lo] else Content(log[..|log| - 1], o)
  }

  function PageCount(size: nat): nat {
    (size + 0xFFF) / PAGE
  }

  function PageEnd(size: nat, page: nat): nat {
    Min(size, page * PAGE + PAGE)
  }

  lemma PagesPartition(size: nat, o: nat)
    requires o < size
    ensures o / PAGE < PageCount(size) && (o / PAGE) * PAGE <= o < PageEnd(size, o / PAGE)
  {
  }

  /** The read is an answer of the debugger, for bytes of the image in a usable region. */
  ghost predicate Genuine(dbg: Debugger, base: nat, size: nat, r: Read) {
    && r.bytes != [] && r.Hi() <= size
    && r.bytes == dbg.answer(r.call, base + r.lo, r.want)
    && r.region < |dbg.regions|
    && dbg.regions[r.region].Holds(base + r.lo) && dbg.regions[r.region].Holds(base + r.Hi() - 1)
  }

  ghost predicate AllGenuine(dbg: Debugger, base: nat, size: nat, log: seq<Read>) {
    forall k :: 0 <= k < |log| ==> Genuine(dbg, base, size, log[k])
  }

  /** No two usable regions share an address an image can hold; address zero is in none. */
  ghost predicate DisjointRegions(regions: seq<Region>) {
    forall i, j, address :: 0 <= i < j < |regions| && 0 < address && regions[i].Holds(address) ==> !regions[j].Holds(address)
  }

  /** Adds a read to the counts of the pages it reaches; counters are 32-bit. */
  method AddCoverage(covered: array<u32>, size: nat, r: Read, ghost log: seq<Read>)
    requires covered.Length == PageCount(size) && r.bytes != [] && r.Hi() <= size
    requires forall p :: 0 <= p < covered.Length ==> covered[p] == Delivered(log, p * PAGE, PageEnd(size, p)) % 0x1_0000_0000
    modifies covered
    ensures forall p :: 0 <= p < covered.Length ==> covered[p] == Delivered(log + [r], p * PAGE, PageEnd(size, p)) % 0x1_0000_0000
  {
    hide Delivered, PageCount, PageEnd;
    var firstPage, lastPage := r.lo / PAGE, (r.Hi() - 1) / PAGE;
    PagesPartition(size, r.Hi() - 1);
    for page := firstPage to lastPage + 1
      invariant forall p :: 0 <= p < covered.Length ==>
        covered[p] == if firstPage <= p < page then Delivered(log + [r], p * PAGE, PageEnd(size, p)) % 0x1_0000_0000
                      else old(covered[p])
    {
      PageEndIs(size, page);
      var overlapLo := Max(r.lo, page * PAGE);
      var overlapHi := Min(r.Hi(), Min(size, page * PAGE + PAGE));
      DeliveredAppend(log, r, page * PAGE, PageEnd(size, page));
      if overlapLo < overlapHi {
        covered[page] := (covered[page] + (overlapHi - overlapLo)) % 0x1_0000_0000;
      }
    }
    forall p | 0 <= p < covered.Length && !(firstPage <= p <= lastPage)
      ensures Delivered(log + [r], p * PAGE, PageEnd(size, p)) == Delivered(log, p * PAGE, PageEnd(size, p))
    {
      PageEndIs(size, p);
      DeliveredAppend(log, r, p * PAGE, PageEnd(size, p));
    }
  }

  lemma PageEndIs(size: nat, page: nat)
    ensures PageEnd(size, page) == Min(size, page * PAGE + PAGE)
  {
  }

  lemma DeliveredAppend(log: seq<Read>, r: Read, lo: nat, hi: nat)
    ensures Delivered(log + [r], lo, hi) == Delivered(log, lo, hi) + Overlap(r.lo, r.Hi(), lo, hi)
  {
    assert (log + [r])[..|log|] == log;
  }

  /** The buffer shows the reads, and the counters count them. */
  ghost predicate Shows(image: seq<u8>, covered: seq<u32>, log: seq<Read>) {
    && |covered| == PageCount(|image|)
    && (forall o :: 0 <= o < |image| ==> image[o] == Content(log, o))
    && forall p :: 0 <= p < |covered| ==>
         covered[p] == Delivered(log, p * PAGE, PageEnd(|image|, p)) % 0x1_0000_0000
  }

  /** Copies a read into the image and counts it. */
  method Deliver(out: array<u8>, covered: array<u32>, r: Read, ghost log: seq<Read>)
    requires out != covered as object && Shows(out[..], covered[..], log)
    requires r.bytes != [] && r.Hi() <= out.Length
    modifies out, covered
    ensures Shows(out[..], covered[..], log + [r])
  {
    hide Delivered, Content;
    for i := 0 to |r.bytes|
      invariant forall o :: 0 <= o < out.Length ==>
        out[o] == if r.lo <= o < r.lo + i then r.bytes[o - r.lo] else Content(log, o)
      invariant covered[..] == old(covered[..])
    {
      out[r.lo + i] := r.bytes[i];
    }
    forall o | 0 <= o < out.Length
      ensures out[o] == Content(log + [r], o)
    {
      ContentAppend(log, r, o);
    }
    AddCoverage(covered, out.Length, r, log);
  }

  lemma ContentAppend(log: seq<Read>, r: Read, o: nat)
    ensures Content(log + [r], o) == if r.Contains(o) then r.bytes[o - r.lo] else Content(log, o)
  {
    assert (log + [r])[..|log|] == log;
  }

  /** The reads of a run so far: those of earlier regions, and those of this region up to an address. */
  ghost predicate Upto(dbg: Debugger, base: nat, size: nat, log: seq<Read>, region: nat, at: nat) {
    && AllGenuine(dbg, base, size, log)
    && (forall k :: 0 <= k < |log| ==> log[k].region < region || (log[k].region == region && base + log[k].Hi() <= at))
    && (DisjointRegions(dbg.regions) ==> Disjoint(log))
  }

  /** With a debugger that always answers in full, every readable byte passed so far was captured. */
  ghost predicate Complete(dbg: Debugger, base: nat, size: nat, log: seq<Read>, region: nat, at: nat) {
    dbg.AlwaysAnswers() ==>
      forall i, o :: 0 <= i < |dbg.regions| && 0 <= o < size && dbg.regions[i].Holds(base + o) ==>
        i < region || (i == region && base + o < at) ==> Captured(log, o)
  }

  lemma AppendDisjoint(dbg: Debugger, base: nat, size: nat, log: seq<Read>, region: nat, at: nat, r: Read)
    requires Upto(dbg, base, size, log, region, at) && DisjointRegions(dbg.regions)
    requires Genuine(dbg, base, size, r) && r.region == region && base + r.lo == at && 0 < base
    ensures Disjoint(log + [r])
  {
    var next := log + [r];
    assert forall k :: 0 <= k < |log| ==> next[k] == log[k];
    forall k | 0 <= k < |log|
      ensures log[k].Hi() <= r.lo || r.Hi() <= log[k].lo
    {
      if log[k].region < region && log[k].lo < r.Hi() && r.lo < log[k].Hi() {
        var shared := base + Max(log[k].lo, r.lo);
        assert dbg.regions[log[k].region].Holds(shared) && dbg.regions[region].Holds(shared);
        assert false;
      }
    }
  }

  lemma AppendRead(dbg: Debugger, base: nat, size: nat, log: seq<Read>, region: nat, at: nat, r: Read)
    requires Upto(dbg, base, size, log, region, at) && Complete(dbg, base, size, log, region, at)
    requires Genuine(dbg, base, size, r) && r.region == region && base + r.lo == at && 0 < base
    ensures Upto(dbg, base, size, log + [r], region, at + |r.bytes|)
    ensures Complete(dbg, base, size, log + [r], region, at + |r.bytes|)
  {
    var next := log + [r];
    assert forall k :: 0 <= k < |log| ==> next[k] == log[k];
    if DisjointRegions(dbg.regions) {
      AppendDisjoint(dbg, base, size, log, region, at, r);
    }
    if dbg.AlwaysAnswers() {
      forall i, o | 0 <= i < |dbg.regions| && 0 <= o < size && dbg.regions[i].Holds(base + o) &&
                    (i < region || (i == region && base + o < at + |r.bytes|))
        ensures Captured(next, o)
      {
        CapturedBy(log, r, o);
      }
    }
  }

  /** The reads of a region from an address on, and the number of the next question. */
  ghost function RegionReads(dbg: Debugger, base: nat, size: nat, region: nat, call: nat, at: nat): (seq<Read>, nat)
    requires region < |dbg.regions| && base <= at
    decreases base + size - at
  {
    var r := dbg.regions[region];
    var hi := Min(base + size, r.base + r.size);
    if at >= hi then ([], call)
    else
      var want := Min(hi - at, CHUNK);
      var got := dbg.answer(call, at, want);
      if got == [] then ([], call + 1)
      else
        var read := Read(at - base, got, region, call, want);
        if |got| < want then ([read], call + 1)
        else
          var rest := RegionReads(dbg, base, size, region, call + 1, at + |got|);
          ([read] + rest.0, rest.1)
  }

  /** The address behind the last read, or where reading starts. */
  ghost function Reached(base: nat, at: nat, log: seq<Read>): nat {
    if log == [] then at else base + log[|log| - 1].Hi()
  }

  /** The answer to this question for up to 1 MiB of what is left of the region in the image. */
  ghost predicate AnswerTo(dbg: Debugger, base: nat, end: nat, region: nat, call: nat, r: Read) {
    && base + r.lo < end && r.region == region && r.call == call
    && r.want == Min(end - (base + r.lo), 0x10_0000) && r.bytes == dbg.answer(call, base + r.lo, r.want) && r.bytes != []
  }

  /** Answered questions, one right behind the other: each but the last is answered in full. */
  ghost predicate Questions(dbg: Debugger, base: nat, end: nat, region: nat, call: nat, at: nat, log: seq<Read>) {
    && (forall k :: 0 <= k < |log| ==> AnswerTo(dbg, base, end, region, call + k, log[k]))
    && (log != [] ==> base + log[0].lo == at)
    && (forall k :: 0 <= k < |log| - 1 ==> |log[k].bytes| == log[k].want && log[k + 1].lo == log[k].Hi())
  }

  /** The region ends there, or its last answer was short, or the next one was empty. */
  ghost predicate Ends(dbg: Debugger, base: nat, end: nat, call: nat, at: nat, log: seq<Read>, next: nat) {
    var reached := Reached(base, at, log);
    if end <= reached || (log != [] && |log[|log| - 1].bytes| < log[|log| - 1].want) then next == call + |log|
    else next == call + |log| + 1 && dbg.answer(call + |log|, reached, Min(end - reached, 0x10_0000)) == []
  }

  lemma QuestionsCons(dbg: Debugger, base: nat, end: nat, region: nat, call: nat, at: nat, r: Read, log: seq<Read>, next: nat)
    requires AnswerTo(dbg, base, end, region, call, r) && base + r.lo == at && |r.bytes| == r.want
    requires Questions(dbg, base, end, region, call + 1, base + r.Hi(), log) && Ends(dbg, base, end, call + 1, base + r.Hi(), log, next)
    ensures Questions(dbg, base, end, region, call, at, [r] + log) && Ends(dbg, base, end, call, at, [r] + log, next)
  {
    hide AnswerTo;
    var all := [r] + log;
    forall k | 0 <= k < |all|
      ensures AnswerTo(dbg, base, end, region, call + k, all[k])
    {
      if k > 0 {
        assert all[k] == log[k - 1] && AnswerTo(dbg, base, end, region, call + 1 + (k - 1), log[k - 1]);
      }
    }
    assert forall k :: 1 <= k < |all| ==> all[k] == log[k - 1];
  }

  /**
    Each question asks for up to 1 MiB of what is left of the region in the image; a full answer is followed by a
    question right behind it, and a short or an empty one ends the region.
   */
  lemma {:induction false} QuestionsAre(dbg: Debugger, base: nat, size: nat, region: nat, call: nat, at: nat)
    requires dbg.Sound() && region < |dbg.regions| && base <= at
    ensures var end := Min(base + size, dbg.regions[region].base + dbg.regions[region].size);
            var found := RegionReads(dbg, base, size, region, call, at);
            Questions(dbg, base, end, region, call, at, found.0) && Ends(dbg, base, end, call, at, found.0, found.1)
    decreases base + size - at
  {
    hide RegionReads, Questions, Ends;
    RegionReadsStep(dbg, base, size, region, call, at);
    var end := Min(base + size, dbg.regions[region].base + dbg.regions[region].size);
    if end <= at {
      NoQuestions(dbg, base, end, region, call, at);
    } else {
      var want := Min(end - at, CHUNK);
      var got := dbg.answer(call, at, want);
      if got == [] {
        NoQuestions(dbg, base, end, region, call, at);
      } else if |got| < want {
        LastQuestion(dbg, base, end, region, call, at, Read(at - base, got, region, call, want));
      } else {
        QuestionsAre(dbg, base, size, region, call + 1, at + want);
        var rest := RegionReads(dbg, base, size, region, call + 1, at + want);
        QuestionsCons(dbg, base, end, region, call, at, Read(at - base, got, region, call, want), rest.0, rest.1);
      }
    }
  }

  lemma NoQuestions(dbg: Debugger, base: nat, end: nat, region: nat, call: nat, at: nat)
    ensures Questions(dbg, base, end, region, call, at, [])
    ensures end <= at ==> Ends(dbg, base, end, call, at, [], call)
    ensures at < end && dbg.answer(call, at, Min(end - at, CHUNK)) == [] ==> Ends(dbg, base, end, call, at, [], call + 1)
  {
  }

  lemma LastQuestion(dbg: Debugger, base: nat, end: nat, region: nat, call: nat, at: nat, r: Read)
    requires AnswerTo(dbg, base, end, region, call, r) && base + r.lo == at && |r.bytes| < r.want
    ensures Questions(dbg, base, end, region, call, at, [r]) && Ends(dbg, base, end, call, at, [r], call + 1)
  {
    hide AnswerTo;
  }

  /** The reads of all usable regions from one on, in order. */
  ghost function AllReads(dbg: Debugger, base: nat, size: nat, region: nat, call: nat): seq<Read>
    requires region <= |dbg.regions|
    decreases |dbg.regions| - region
  {
    if region == |dbg.regions| then []
    else if !dbg.regions[region].Usable() then AllReads(dbg, base, size, region + 1, call)
    else
      var found := RegionReads(dbg, base, size, region, call, Max(base, dbg.regions[region].base));
      found.0 + AllReads(dbg, base, size, region + 1, found.1)
  }

  lemma RegionReadsStep(dbg: Debugger, base: nat, size: nat, region: nat, call: nat, at: nat)
    requires region < |dbg.regions| && base <= at
    ensures var r := dbg.regions[region];
            var hi := Min(base + size, r.base + r.size);
            if at >= hi then RegionReads(dbg, base, size, region, call, at) == ([], call)
            else
              var want := Min(hi - at, CHUNK);
              var got := dbg.answer(call, at, want);
              var read := Read(at - base, got, region, call, want);
              && (got == [] ==> RegionReads(dbg, base, size, region, call, at) == ([], call + 1))
              && (got != [] && |got| < want ==> RegionReads(dbg, base, size, region, call, at) == ([read], call + 1))
              && (got != [] && |got| >= want ==>
                    RegionReads(dbg, base, size, region, call, at).0 ==
                    [read] + RegionReads(dbg, base, size, region, call + 1, at + |got|).0 &&
                    RegionReads(dbg, base, size, region, call, at).1 ==
                    RegionReads(dbg, base, size, region, call + 1, at + |got|).1)
  {
  }

  /** Reads one region chunk by chunk, up to its end or the first short answer. */
  method ReadRegion(dbg: Debugger, base: u64, region: nat, firstCall: nat, out: array<u8>, covered: array<u32>, ghost earlier: seq<Read>)
    returns (any: bool, call: nat, ghost log: seq<Read>)
    requires dbg.Sound() && region < |dbg.regions| && base + out.Length <= U64_MAX
    requires out != covered as object && Shows(out[..], covered[..], earlier)
    modifies out, covered
    ensures Shows(out[..], covered[..], log)
    ensures any <==> log != earlier
    ensures if dbg.regions[region].Usable() then
              var expected := RegionReads(dbg, base, out.Length, region, firstCall, Max(base, dbg.regions[region].base));
              log == earlier + expected.0 && call == expected.1
            else log == earlier && call == firstCall
  {
    hide Shows, Genuine, RegionReads;
    var r := dbg.regions[region];
    any, call, log := false, firstCall, earlier;
    if !r.read || r.size == 0 || r.base > U64_MAX - r.size {
      return;
    }
    var lo, hi := Max(base, r.base), Min(base + out.Length, r.base + r.size);
    var at := lo;
    ghost var expected := RegionReads(dbg, base, out.Length, region, firstCall, lo);
    while at < hi
      invariant lo <= at && (at <= hi || at == lo)
      invariant Shows(out[..], covered[..], log) && earlier <= log && (any <==> log != earlier)
      invariant log + RegionReads(dbg, base, out.Length, region, call, at).0 == earlier + expected.0
      invariant RegionReads(dbg, base, out.Length, region, call, at).1 == expected.1
      decreases hi - at
    {
      RegionReadsStep(dbg, base, out.Length, region, call, at);
      var want := Min(hi - at, CHUNK);
      var got := dbg.answer(call, at, want);
      var delivered := Read(at - base, got, region, call, want);
      call := call + 1;
      if got == [] {
        return;
      }
      GenuineRead(dbg, base, out.Length, delivered);
      GenuineFits(dbg, base, out.Length, delivered);
      Deliver(out, covered, delivered, log);
      Associate(log, [delivered], RegionReads(dbg, base, out.Length, region, call, at + |got|).0);
      any, log, at := true, log + [delivered], at + |got|;
      if |got| < want {
        return;
      }
    }
    RegionReadsStep(dbg, base, out.Length, region, call, at);
  }

  lemma GenuineFits(dbg: Debugger, base: nat, size: nat, r: Read)
    requires Genuine(dbg, base, size, r)
    ensures r.bytes != [] && r.Hi() <= size
  {
  }

  lemma GenuineRead(dbg: Debugger, base: nat, size: nat, r: Read)
    requires dbg.Sound() && r.region < |dbg.regions| && dbg.regions[r.region].Usable() && r.bytes != []
    requires r.bytes == dbg.answer(r.call, base + r.lo, r.want)
    requires dbg.regions[r.region].base <= base + r.lo
    requires base + r.lo + r.want <= Min(base + size, dbg.regions[r.region].base + dbg.regions[r.region].size)
    ensures Genuine(dbg, base, size, r)
  {
  }

  lemma ShortAnswer(dbg: Debugger, call: nat, at: nat, want: nat)
    requires |dbg.answer(call, at, want)| != want
    ensures !dbg.AlwaysAnswers()
  {
  }

  /** A region is done at its end, at the end of the image, when it is not usable, or when an answer fell short. */
  lemma SkipRegion(dbg: Debugger, base: nat, size: nat, log: seq<Read>, region: nat, at: nat)
    requires Upto(dbg, base, size, log, region, at) && Complete(dbg, base, size, log, region, at)
    requires region < |dbg.regions|
    requires var r := dbg.regions[region]; r.Usable() && dbg.AlwaysAnswers() ==> Min(base + size, r.base + r.size) <= at
    ensures Upto(dbg, base, size, log, region + 1, 0) && Complete(dbg, base, size, log, region + 1, 0)
  {
  }

  lemma StartRegion(dbg: Debugger, base: nat, size: nat, log: seq<Read>, region: nat, at: nat)
    requires Upto(dbg, base, size, log, region, 0) && Complete(dbg, base, size, log, region, 0)
    requires region < |dbg.regions| && at == Max(base, dbg.regions[region].base)
    ensures Upto(dbg, base, size, log, region, at) && Complete(dbg, base, size, log, region, at)
  {
  }

  lemma {:induction false} RegionFacts(dbg: Debugger, base: nat, size: nat, log: seq<Read>, region: nat, call: nat, at: nat)
    requires dbg.Sound() && 0 < base && base + size <= U64_MAX
    requires region < |dbg.regions| && dbg.regions[region].Usable() && Max(base, dbg.regions[region].base) <= at
    requires Upto(dbg, base, size, log, region, at) && Complete(dbg, base, size, log, region, at)
    ensures var after := log + RegionReads(dbg, base, size, region, call, at).0;
            Upto(dbg, base, size, after, region + 1, 0) && Complete(dbg, base, size, after, region + 1, 0)
    decreases base + size - at
  {
    hide Upto, Complete, Genuine, RegionReads;
    RegionReadsStep(dbg, base, size, region, call, at);
    var r := dbg.regions[region];
    var hi := Min(base + size, r.base + r.size);
    assert log + [] == log;
    if at >= hi {
      SkipRegion(dbg, base, size, log, region, at);
    } else {
      var want := Min(hi - at, CHUNK);
      var got := dbg.answer(call, at, want);
      if got == [] {
        ShortAnswer(dbg, call, at, want);
        SkipRegion(dbg, base, size, log, region, at);
      } else {
        var read := Read(at - base, got, region, call, want);
        GenuineRead(dbg, base, size, read);
        AppendRead(dbg, base, size, log, region, at, read);
        if |got| < want {
          ShortAnswer(dbg, call, at, want);
          SkipRegion(dbg, base, size, log + [read], region, at + |got|);
        } else {
          RegionFacts(dbg, base, size, log + [read], region, call + 1, at + |got|);
          Associate(log, [read], RegionReads(dbg, base, size, region, call + 1, at + |got|).0);
        }
      }
    }
  }

  /** All reads are genuine, disjoint for disjoint regions, and complete for full answers. */
  lemma {:induction false} AllReadsFacts(dbg: Debugger, base: nat, size: nat, log: seq<Read>, region: nat, call: nat)
    requires dbg.Sound() && 0 < base && base + size <= U64_MAX && region <= |dbg.regions|
    requires Upto(dbg, base, size, log, region, 0) && Complete(dbg, base, size, log, region, 0)
    ensures var after := log + AllReads(dbg, base, size, region, call);
            Upto(dbg, base, size, after, |dbg.regions|, 0) && Complete(dbg, base, size, after, |dbg.regions|, 0)
    decreases |dbg.regions| - region
  {
    hide Upto, Complete, RegionReads, AllReads;
    AllReadsStep(dbg, base, size, region, call);
    if region == |dbg.regions| {
      assert log + [] == log;
    } else if !dbg.regions[region].Usable() {
      SkipRegion(dbg, base, size, log, region, 0);
      AllReadsFacts(dbg, base, size, log, region + 1, call);
    } else {
      var at := Max(base, dbg.regions[region].base);
      var found := RegionReads(dbg, base, size, region, call, at);
      StartRegion(dbg, base, size, log, region, at);
      RegionFacts(dbg, base, size, log, region, call, at);
      AllReadsFacts(dbg, base, size, log + found.0, region + 1, found.1);
      Associate(log, found.0, AllReads(dbg, base, size, region + 1, found.1));
    }
  }

  // ---------------------------------------------------------------------------
  // The whole image.

  /** The region is readable, ends in the address space, and holds the address. */
  ghost predicate Readable(region: Region, address: int) {
    region.read && region.base + region.size <= 0xFFFF_FFFF_FFFF_FFFF && region.base <= address < region.base + region.size
  }

  ghost predicate PageCaptured(log: seq<Read>, size: nat, page: nat) {
    forall o :: page * PAGE <= o < PageEnd(size, page) ==> Captured(log, o)
  }

  /**
    Reads every usable region that meets the image. A page is marked by its count; when the regions of the
    process are disjoint, that is exactly when each of its bytes was delivered.
   */
  method ReadMappedImage(dbg: Debugger, base: u64, size: u64, cap: u64)
    returns (any: bool, image: seq<u8>, validPages: seq<bool>, ghost log: seq<Read>)
    requires dbg.Sound()
    ensures base == 0 || size == 0 || base > U64_MAX - size || size > cap ==> !any && image == [] && validPages == [] && log == []
    ensures !(base == 0 || size == 0 || base > U64_MAX - size || size > cap) ==>
              |image| == size && size <= |validPages| * 0x1000 < size + 0x1000
    ensures !(base == 0 || size == 0 || base > U64_MAX - size || size > cap) ==> log == AllReads(dbg, base, size, 0, 0)
    ensures any <==> log != []
    ensures AllGenuine(dbg, base, |image|, log)
    ensures forall o :: 0 <= o < |image| ==> image[o] == Content(log, o)
    ensures forall p :: 0 <= p < |validPages| ==>
              (validPages[p] <==> Delivered(log, p * PAGE, PageEnd(size, p)) % 0x1_0000_0000 >= PageEnd(size, p) - p * PAGE)
    ensures DisjointRegions(dbg.regions) ==> forall p :: 0 <= p < |validPages| ==> (validPages[p] <==> PageCaptured(log, size, p))
    ensures dbg.AlwaysAnswers() ==>
              forall i, o :: 0 <= i < |dbg.regions| && 0 <= o < |image| && Readable(dbg.regions[i], base + o) ==> Captured(log, o)
  {
    hide Shows, Upto, Complete, Genuine, AllGenuine, DisjointRegions, Disjoint, Delivered, PageCaptured, Content, RegionReads;
    any, image, validPages, log := false, [], [], [];
    if base == 0 || size == 0 || base > U64_MAX - size || size > cap {
      NothingRead(dbg, base, 0);
      return;
    }
    var pageCount := PageCount(size);
    var out, covered := new u8[size](_ => 0), new u32[pageCount](_ => 0);
    NothingRead(dbg, base, size);
    NothingShown(out[..], covered[..]);
    var call := 0;
    for i := 0 to |dbg.regions|
      invariant Shows(out[..], covered[..], log)
      invariant any <==> log != []
      invariant log + AllReads(dbg, base, size, i, call) == AllReads(dbg, base, size, 0, 0)
    {
      var more;
      ghost var before := log;
      more, call, log := ReadRegion(dbg, base, i, call, out, covered, log);
      any := any || more;
      Associate(before, log[|before|..], AllReads(dbg, base, size, i + 1, call));
    }
    image := out[..];
    validPages := MarkPages(covered[..], size);
    AllReadsStep(dbg, base, size, |dbg.regions|, call);
    AllReadsFacts(dbg, base, size, [], 0, 0);
    assert [] + log == log && log + [] == log;
    WhatWasRead(dbg, base, image, covered[..], log, validPages);
  }

  function Sevens(n: nat): seq<u8> {
    seq(n, _ => 7)
  }

  /** Two regions of one readable byte each, at one address. */
  function Overlapping(): Debugger {
    Debugger([Region(0x1000, 1, true), Region(0x1000, 1, true)], (call: nat, at: nat, want: nat) => Sevens(want))
  }

  lemma OverlappingReads()
    ensures AllReads(Overlapping(), 0x1000, 2, 0, 0) == [Read(0, [7], 0, 0, 1), Read(0, [7], 1, 1, 1)]
  {
    hide RegionReads, AllReads;
    var dbg := Overlapping();
    assert dbg.answer(0, 0x1000, 1) == [7] && dbg.answer(1, 0x1000, 1) == [7];
    RegionReadsStep(dbg, 0x1000, 2, 0, 0, 0x1000);
    RegionReadsStep(dbg, 0x1000, 2, 0, 1, 0x1001);
    RegionReadsStep(dbg, 0x1000, 2, 1, 1, 0x1000);
    RegionReadsStep(dbg, 0x1000, 2, 1, 2, 0x1001);
    AllReadsStep(dbg, 0x1000, 2, 0, 0);
    AllReadsStep(dbg, 0x1000, 2, 1, 1);
    AllReadsStep(dbg, 0x1000, 2, 2, 2);
  }

  lemma AllReadsStep(dbg: Debugger, base: nat, size: nat, region: nat, call: nat)
    requires region <= |dbg.regions|
    ensures region == |dbg.regions| ==> AllReads(dbg, base, size, region, call) == []
    ensures region < |dbg.regions| && !dbg.regions[region].Usable() ==>
              AllReads(dbg, base, size, region, call) == AllReads(dbg, base, size, region + 1, call)
    ensures region < |dbg.regions| && dbg.regions[region].Usable() ==>
              var found := RegionReads(dbg, base, size, region, call, Max(base, dbg.regions[region].base));
              AllReads(dbg, base, size, region, call) == found.0 + AllReads(dbg, base, size, region + 1, found.1)
  {
    hide RegionReads;
  }

  /**
    When regions overlap a page can be marked although one of its bytes was never delivered: here the image
    has two bytes, the second lies in no region, and the first is delivered twice.
   */
  lemma OverlapMiscounts()
    ensures Overlapping().Sound() && Overlapping().AlwaysAnswers()
    ensures var log := AllReads(Overlapping(), 0x1000, 2, 0, 0);
            Delivered(log, 0, PageEnd(2, 0)) % 0x1_0000_0000 >= PageEnd(2, 0) && !Captured(log, 1)
  {
    hide AllReads;
    OverlappingReads();
    var r, s := Read(0, [7], 0, 0, 1), Read(0, [7], 1, 1, 1);
    DeliveredAppend([], r, 0, 2);
    DeliveredAppend([r], s, 0, 2);
    assert [] + [r] == [r] && [r] + [s] == [r, s];
  }

  lemma NothingRead(dbg: Debugger, base: nat, size: nat)
    ensures Upto(dbg, base, size, [], 0, 0) && Complete(dbg, base, size, [], 0, 0) && AllGenuine(dbg, base, size, [])
  {
  }

  lemma NothingShown(image: seq<u8>, covered: seq<u32>)
    requires |covered| == PageCount(|image|) && (forall o :: 0 <= o < |image| ==> image[o] == 0)
    requires forall p :: 0 <= p < |covered| ==> covered[p] == 0
    ensures Shows(image, covered, [])
  {
  }

  method MarkPages(covered: seq<u32>, size: nat) returns (validPages: seq<bool>)
    requires |covered| == PageCount(size)
    ensures |validPages| == |covered|
    ensures forall p :: 0 <= p < |covered| ==> (validPages[p] <==> covered[p] >= PageEnd(size, p) - p * PAGE)
  {
    validPages := [];
    for page := 0 to |covered|
      invariant |validPages| == page
      invariant forall p :: 0 <= p < page ==> (validPages[p] <==> covered[p] >= PageEnd(size, p) - p * PAGE)
    {
      var required := Min(PAGE, size - page * PAGE);
      validPages := validPages + [covered[page] >= required];
    }
  }

  lemma WhatWasRead(dbg: Debugger, base: nat, image: seq<u8>, covered: seq<u32>, log: seq<Read>, validPages: seq<bool>)
    requires Shows(image, covered, log) && |validPages| == |covered|
    requires Upto(dbg, base, |image|, log, |dbg.regions|, 0) && Complete(dbg, base, |image|, log, |dbg.regions|, 0)
    requires forall p :: 0 <= p < |covered| ==> (validPages[p] <==> covered[p] >= PageEnd(|image|, p) - p * PAGE)
    ensures AllGenuine(dbg, base, |image|, log)
    ensures forall o :: 0 <= o < |image| ==> image[o] == Content(log, o)
    ensures forall p :: 0 <= p < |validPages| ==>
              (validPages[p] <==> Delivered(log, p * PAGE, PageEnd(|image|, p)) % 0x1_0000_0000 >= PageEnd(|image|, p) - p * PAGE)
    ensures DisjointRegions(dbg.regions) ==> forall p :: 0 <= p < |validPages| ==> (validPages[p] <==> PageCaptured(log, |image|, p))
    ensures dbg.AlwaysAnswers() ==>
              forall i, o :: 0 <= i < |dbg.regions| && 0 <= o < |image| && dbg.regions[i].Holds(base + o) ==> Captured(log, o)
  {
    hide Delivered, Content, Captured, AllGenuine, DisjointRegions, Disjoint;
    if DisjointRegions(dbg.regions) {
      forall p | 0 <= p < |validPages|
        ensures validPages[p] <==> PageCaptured(log, |image|, p)
      {
        CompleteIffCaptured(log, p * PAGE, PageEnd(|image|, p));
      }
    }
  }

  // ---------------------------------------------------------------------------
  // When marks can be trusted.

  /** The verdict on a page of a request is right. */
  ghost predicate MarkedRight(dbg: Debugger, base: nat, size: nat, page: nat) {
    var log := AllReads(dbg, base, size, 0, 0);
    Delivered(log, page * PAGE, PageEnd(size, page)) % 0x1_0000_0000 >= PageEnd(size, page) - page * PAGE <==>
    PageCaptured(log, size, page)
  }

  lemma DisjointMarkedRight(dbg: Debugger, base: nat, size: nat, page: nat)
    requires dbg.Sound() && DisjointRegions(dbg.regions)
    requires 0 < base && 0 < size && base + size <= U64_MAX && page < PageCount(size)
    ensures MarkedRight(dbg, base, size, page)
  {
    hide Complete, AllReads, Delivered, Captured;
    NothingRead(dbg, base, size);
    AllReadsFacts(dbg, base, size, [], 0, 0);
    var log := AllReads(dbg, base, size, 0, 0);
    assert [] + log == log;
    CompleteIffCaptured(log, page * PAGE, PageEnd(size, page));
  }

  /** A process that answers for one address only. */
  function AnswersAt(regions: seq<Region>, address: nat): Debugger {
    Debugger(regions, (call: nat, at: nat, want: nat) => if at == address && want > 0 then [7] else [])
  }

  /** In the two bytes from there on, every region that holds the address delivers the first one, and nothing else. */
  lemma {:induction false} OneByteEach(regions: seq<Region>, address: nat, i: nat, j: nat, region: nat, call: nat)
    requires i < j < |regions| && regions[i].Holds(address) && regions[j].Holds(address) && region <= |regions|
    ensures var log := AllReads(AnswersAt(regions, address), address, 2, region, call);
            && (forall k :: 0 <= k < |log| ==> log[k].lo == 0 && |log[k].bytes| == 1)
            && |log| <= |regions| - region
            && (if region <= i then 1 else 0) + (if region <= j then 1 else 0) <= |log|
    decreases |regions| - region
  {
    hide RegionReads, AllReads;
    var dbg := AnswersAt(regions, address);
    AllReadsStep(dbg, address, 2, region, call);
    if region < |regions| {
      if regions[region].Usable() {
        var at := Max(address, regions[region].base);
        RegionReadsStep(dbg, address, 2, region, call, at);
        RegionReadsStep(dbg, address, 2, region, call + 1, at + 1);
        OneByteEach(regions, address, i, j, region + 1, RegionReads(dbg, address, 2, region, call, at).1);
      } else {
        OneByteEach(regions, address, i, j, region + 1, call);
      }
    }
  }

  lemma {:induction false} DeliveredOneEach(log: seq<Read>)
    requires forall k :: 0 <= k < |log| ==> log[k].lo == 0 && |log[k].bytes| == 1
    ensures Delivered(log, 0, 2) == |log| && !Captured(log, 1)
  {
    if log != [] {
      DeliveredOneEach(log[..|log| - 1]);
    }
  }

  lemma SharedAddressMiscounts(regions: seq<Region>, i: nat, j: nat, address: nat)
    requires i < j < |regions| <= U32_MAX && regions[i].Holds(address) && regions[j].Holds(address)
    ensures AnswersAt(regions, address).Sound() && !MarkedRight(AnswersAt(regions, address), address, 2, 0)
  {
    hide AllReads, Delivered, Captured;
    var log := AllReads(AnswersAt(regions, address), address, 2, 0, 0);
    OneByteEach(regions, address, i, j, 0, 0);
    DeliveredOneEach(log);
    assert PageEnd(2, 0) == 2;
  }

  /**
    Marks are right for every process, image and page exactly when no two usable regions share an address.
    (There are fewer than 2^32 regions, and two that share the last address they could share the one before too.)
   */
  lemma MarksRightIff(regions: seq<Region>)
    requires |regions| <= U32_MAX
    requires forall i, j :: 0 <= i < j < |regions| && regions[i].Holds(U64_MAX - 1) && regions[j].Holds(U64_MAX - 1) ==>
               regions[i].Holds(U64_MAX - 2) && regions[j].Holds(U64_MAX - 2)
    ensures (forall dbg: Debugger, base: nat, size: nat, page: nat {:trigger MarkedRight(dbg, base, size, page)} ::
               dbg.regions == regions && dbg.Sound() && 0 < base && 0 < size && base + size <= U64_MAX && page < PageCount(size) ==>
                 MarkedRight(dbg, base, size, page))
            <==> DisjointRegions(regions)
  {
    hide MarkedRight;
    if DisjointRegions(regions) {
      forall dbg: Debugger, base: nat, size: nat, page: nat |
          dbg.regions == regions && dbg.Sound() && 0 < base && 0 < size && base + size <= U64_MAX && page < PageCount(size)
        ensures MarkedRight(dbg, base, size, page)
      {
        DisjointMarkedRight(dbg, base, size, page);
      }
    } else {
      var i, j, address :| 0 <= i < j < |regions| && 0 < address && regions[i].Holds(address) && regions[j].Holds(address);
      SharedAddressMiscounts(regions, i, j, if address == U64_MAX - 1 then U64_MAX - 2 else address);
    }
  }

  // ---------------------------------------------------------------------------
  // Whether a dump may be called complete.

  function U16At(mapped: seq<u8>, off: nat): Option<nat> {
    if off + 2 <= |mapped| then Some(mapped[off] as int + 0x100 * (mapped[off + 1] as int)) else None
  }

  function U32At(mapped: seq<u8>, off: nat): Option<nat> {
    if off + 4 <= |mapped|
    then Some(mapped[off] as int + 0x100 * (mapped[off + 1] as int) + 0x1_0000 * (mapped[off + 2] as int)
              + 0x100_0000 * (mapped[off + 3] as int))
    else None
  }

  /** Every byte of the span is in the image, on a valid page. */
  ghost predicate Spanned(mapped: seq<u8>, validPages: seq<bool>, off: nat, len: nat) {
    forall o :: off <= o < off + len ==> OnValidPage(mapped, validPages, o)
  }

  ghost predicate OnValidPage(mapped: seq<u8>, validPages: seq<bool>, o: nat) {
    o < |mapped| && o / PAGE < |validPages| && validPages[o / PAGE]
  }

  method Covered(mapped: seq<u8>, validPages: seq<bool>, off: u64, len: u64) returns (ok: bool)
    requires |mapped| <= U64_MAX
    ensures ok <==> Spanned(mapped, validPages, off, len)
  {
    if len == 0 {
      return true;
    }
    if off > |mapped| || len > |mapped| - off {
      assert !OnValidPage(mapped, validPages, off + len - 1);
      return false;
    }
    var first, last := off / PAGE, (off + len - 1) / PAGE;
    if last >= |validPages| {
      assert !OnValidPage(mapped, validPages, off + len - 1);
      return false;
    }
    for page := first to last + 1
      invariant forall p :: first <= p < page ==> validPages[p]
    {
      if !validPages[page] {
        var o := Max(off, page * PAGE);
        assert off <= o < off + len && !OnValidPage(mapped, validPages, o);
        return false;
      }
    }
    ok := true;
  }

  /** The span that header `i` of the section table lists is on valid pages. */
  ghost predicate SectionSpanned(mapped: seq<u8>, validPages: seq<bool>, table: nat, i: nat) {
    var header := table + i * 40;
    var virtualSize, rva, rawSize := U32At(mapped, header + 8), U32At(mapped, header + 12), U32At(mapped, header + 16);
    virtualSize.Some? && rva.Some? && rawSize.Some? &&
    Spanned(mapped, validPages, rva.value, Max(virtualSize.value, rawSize.value))
  }

  /** The byte belongs to the span that header `i` of the section table lists. */
  ghost predicate InSection(mapped: seq<u8>, table: nat, i: nat, o: nat) {
    var header := table + i * 40;
    var virtualSize, rva, rawSize := U32At(mapped, header + 8), U32At(mapped, header + 12), U32At(mapped, header + 16);
    virtualSize.Some? && rva.Some? && rawSize.Some? &&
    rva.value <= o < rva.value + Max(virtualSize.value, rawSize.value)
  }

  datatype Headers = Headers(sections: nat, table: nat, sizeHeaders: nat)

  /** The fields of a well-formed header. */
  function ParseHeaders(mapped: seq<u8>): Option<Headers> {
    if |mapped| < 0x40 || mapped[0] != 0x4D || mapped[1] != 0x5A then None
    else
      var pe := U32At(mapped, 0x3C);
      if pe.None? || U32At(mapped, pe.value) != Some(0x4550) then None
      else
        var sections := U16At(mapped, pe.value + 6);
        var optionalSize := U16At(mapped, pe.value + 20);
        var sizeHeaders := U32At(mapped, pe.value + 24 + 60);
        if sections.None? || optionalSize.None? || sizeHeaders.None? then None
        else Some(Headers(sections.value, pe.value + 24 + optionalSize.value, sizeHeaders.value))
  }

  /** The headers and every section span lie on valid pages of the image; the section table only lies in it. */
  ghost predicate DumpComplete(mapped: seq<u8>, validPages: seq<bool>) {
    && Spanned(mapped, validPages, 0, Min(|mapped|, PAGE))
    && var h := ParseHeaders(mapped);
    && h.Some?
    && Spanned(mapped, validPages, 0, h.value.sizeHeaders)
    && h.value.sections <= 96 && h.value.table + h.value.sections * 40 <= |mapped|
    && forall i :: 0 <= i < h.value.sections ==> SectionSpanned(mapped, validPages, h.value.table, i)
  }

  method MappedPeCoverageComplete(mapped: seq<u8>, validPages: seq<bool>) returns (ok: bool)
    requires |mapped| <= U64_MAX
    ensures ok <==> DumpComplete(mapped, validPages)
    ensures ok <==> exists l :: LaidOut(mapped, l) && Covers(mapped, validPages, l)
  {
    hide Spanned, U32At, U16At, LaidOut, Covers;
    CompleteIff(mapped, validPages);
    var firstPage := Covered(mapped, validPages, 0, Min(|mapped|, PAGE));
    if !firstPage {
      return false;
    }
    var headers := ParseHeaders(mapped);
    if headers.None? {
      return false;
    }
    FieldsFit(mapped);
    var sections, table := headers.value.sections, headers.value.table;
    var headerPages := Covered(mapped, validPages, 0, headers.value.sizeHeaders);
    if !headerPages || sections > 96 || table > |mapped| || sections * 40 > |mapped| - table {
      return false;
    }
    for i := 0 to sections
      invariant forall j :: 0 <= j < i ==> SectionSpanned(mapped, validPages, table, j)
    {
      var sh := table + i * 40;
      var virtualSize, rawSize, rva := U32At(mapped, sh + 8), U32At(mapped, sh + 16), U32At(mapped, sh + 12);
      if virtualSize.None? || rawSize.None? || rva.None? {
        assert !SectionSpanned(mapped, validPages, table, i);
        return false;
      }
      WordsFit(mapped, sh);
      var span := Covered(mapped, validPages, rva.value, Max(virtualSize.value, rawSize.value));
      if !span {
        assert !SectionSpanned(mapped, validPages, table, i);
        return false;
      }
    }
    ok := true;
  }

  lemma WordsFit(mapped: seq<u8>, header: nat)
    ensures forall k :: U32At(mapped, k).Some? ==> U32At(mapped, k).value <= U32_MAX
  {
  }

  lemma FieldsFit(mapped: seq<u8>)
    ensures ParseHeaders(mapped).Some? ==> ParseHeaders(mapped).value.sizeHeaders <= U32_MAX
  {
  }

  /** The byte exists in the image and was delivered by a read. */
  ghost predicate Delivers(image: seq<u8>, log: seq<Read>, o: int) {
    0 <= o < |image| && Captured(log, o)
  }

  // ---------------------------------------------------------------------------
  // What the verdict relies on.

  /** The image has headers, and its section table lies in it. */
  ghost predicate Shaped(mapped: seq<u8>) {
    var h := ParseHeaders(mapped);
    h.Some? && h.value.sections <= 96 && h.value.table + h.value.sections * 40 <= |mapped|
  }

  /** The verdict asks for this byte: it is in the first page, the stated headers or the span of a listed section. */
  ghost predicate Demanded(mapped: seq<u8>, o: nat)
    requires Shaped(mapped)
  {
    var h := ParseHeaders(mapped).value;
    o < Max(Min(|mapped|, PAGE), h.sizeHeaders) || exists i: nat :: i < h.sections && InSection(mapped, h.table, i, o)
  }

  /** The image accepts some marks: everything that is asked for lies in it. */
  ghost predicate Acceptable(mapped: seq<u8>) {
    Shaped(mapped) && forall o: nat :: Demanded(mapped, o) ==> o < |mapped|
  }

  /** Every byte of the span lies in the image, on a page that the verdict asks for. */
  ghost predicate OnDemandedPages(mapped: seq<u8>, off: nat, len: nat)
    requires Shaped(mapped)
  {
    forall o: nat :: off <= o < off + len ==> OnDemandedPage(mapped, o)
  }

  ghost predicate OnDemandedPage(mapped: seq<u8>, o: nat)
    requires Shaped(mapped)
  {
    o < |mapped| && PageDemanded(mapped, o / PAGE)
  }

  ghost predicate PageDemanded(mapped: seq<u8>, page: nat)
    requires Shaped(mapped)
  {
    exists o: nat :: o / PAGE == page && Demanded(mapped, o)
  }

  lemma HeaderFieldsExist(mapped: seq<u8>, i: nat)
    requires Shaped(mapped) && i < ParseHeaders(mapped).value.sections
    ensures var header := ParseHeaders(mapped).value.table + i * 40;
            U32At(mapped, header + 8).Some? && U32At(mapped, header + 12).Some? && U32At(mapped, header + 16).Some?
  {
    hide ParseHeaders;
  }

  /** A section span is on valid pages exactly when each of its bytes is. */
  lemma SectionBytes(mapped: seq<u8>, validPages: seq<bool>, i: nat)
    requires Shaped(mapped) && i < ParseHeaders(mapped).value.sections
    ensures var table := ParseHeaders(mapped).value.table;
            SectionSpanned(mapped, validPages, table, i) <==>
            forall o: nat :: InSection(mapped, table, i, o) ==> OnValidPage(mapped, validPages, o)
  {
    hide ParseHeaders, U32At, OnValidPage;
    HeaderFieldsExist(mapped, i);
  }

  /** Two spans from the start are one. */
  lemma SpansFromStart(mapped: seq<u8>, validPages: seq<bool>, m: nat, n: nat)
    ensures Spanned(mapped, validPages, 0, m) && Spanned(mapped, validPages, 0, n) <==>
            forall o: nat :: o < Max(m, n) ==> OnValidPage(mapped, validPages, o)
  {
    hide OnValidPage;
  }

  /** Marks are accepted exactly when every byte that is asked for is on a valid page. */
  lemma AcceptedIff(mapped: seq<u8>, validPages: seq<bool>)
    ensures DumpComplete(mapped, validPages) <==>
            Shaped(mapped) && forall o: nat :: Demanded(mapped, o) ==> OnValidPage(mapped, validPages, o)
  {
    hide ParseHeaders, InSection, SectionSpanned, OnValidPage, Spanned, Demanded;
    if Shaped(mapped) {
      var h := ParseHeaders(mapped).value;
      SpansFromStart(mapped, validPages, Min(|mapped|, PAGE), h.sizeHeaders);
      DemandedParts(mapped, validPages);
      if DumpComplete(mapped, validPages) {
        forall i: nat, o: nat | i < h.sections && InSection(mapped, h.table, i, o)
          ensures OnValidPage(mapped, validPages, o)
        {
          SectionBytes(mapped, validPages, i);
        }
      }
      if forall o: nat :: Demanded(mapped, o) ==> OnValidPage(mapped, validPages, o) {
        forall i | 0 <= i < h.sections
          ensures SectionSpanned(mapped, validPages, h.table, i)
        {
          SectionBytes(mapped, validPages, i);
        }
      }
    }
  }

  lemma DemandedParts(mapped: seq<u8>, validPages: seq<bool>)
    requires Shaped(mapped)
    ensures var h := ParseHeaders(mapped).value;
            (forall o: nat :: Demanded(mapped, o) ==> OnValidPage(mapped, validPages, o)) <==>
            && (forall o: nat :: o < Max(Min(|mapped|, PAGE), h.sizeHeaders) ==> OnValidPage(mapped, validPages, o))
            && (forall i: nat, o: nat :: i < h.sections && InSection(mapped, h.table, i, o) ==> OnValidPage(mapped, validPages, o))
  {
    hide ParseHeaders, InSection, OnValidPage;
    var h := ParseHeaders(mapped).value;
    if forall o: nat :: Demanded(mapped, o) ==> OnValidPage(mapped, validPages, o) {
      forall o: nat | o < Max(Min(|mapped|, PAGE), h.sizeHeaders)
        ensures OnValidPage(mapped, validPages, o)
      {
        assert Demanded(mapped, o);
      }
      forall i: nat, o: nat | i < h.sections && InSection(mapped, h.table, i, o)
        ensures OnValidPage(mapped, validPages, o)
      {
        assert Demanded(mapped, o);
      }
    }
  }

  lemma AcceptedAcceptable(mapped: seq<u8>, validPages: seq<bool>)
    requires DumpComplete(mapped, validPages)
    ensures Acceptable(mapped)
  {
    hide ParseHeaders, Demanded, DumpComplete, Shaped;
    AcceptedIff(mapped, validPages);
    assert forall o: nat :: OnValidPage(mapped, validPages, o) ==> o < |mapped|;
  }

  /** The marks that are valid exactly where the verdict asks. */
  ghost function Fewest(mapped: seq<u8>): (validPages: seq<bool>)
    requires Shaped(mapped)
    ensures |validPages| == PageCount(|mapped|)
    ensures forall p :: 0 <= p < |validPages| ==> (validPages[p] <==> PageDemanded(mapped, p))
  {
    seq(PageCount(|mapped|), p requires 0 <= p => PageDemanded(mapped, p))
  }

  /** Whatever the marks, acceptance puts a span on valid pages exactly when the image's own demands do. */
  lemma TrustedIff(mapped: seq<u8>, off: nat, len: nat)
    ensures (forall validPages :: DumpComplete(mapped, validPages) ==> Spanned(mapped, validPages, off, len)) <==>
            (Acceptable(mapped) ==> OnDemandedPages(mapped, off, len))
  {
    hide DumpComplete, Demanded, ParseHeaders, OnDemandedPages, Spanned;
    if Acceptable(mapped) ==> OnDemandedPages(mapped, off, len) {
      forall validPages | DumpComplete(mapped, validPages)
        ensures Spanned(mapped, validPages, off, len)
      {
        AcceptedAcceptable(mapped, validPages);
        AcceptedIff(mapped, validPages);
        DemandedSpanned(mapped, validPages, off, len);
      }
    } else {
      FewestAccepted(mapped, off, len);
      assert !Spanned(mapped, Fewest(mapped), off, len);
    }
  }

  lemma FewestAccepted(mapped: seq<u8>, off: nat, len: nat)
    requires Acceptable(mapped)
    ensures Shaped(mapped) && DumpComplete(mapped, Fewest(mapped))
    ensures Spanned(mapped, Fewest(mapped), off, len) ==> OnDemandedPages(mapped, off, len)
  {
    hide ParseHeaders, Demanded, DumpComplete, Shaped, PageDemanded;
    var fewest := Fewest(mapped);
    forall o: nat | Demanded(mapped, o)
      ensures OnValidPage(mapped, fewest, o)
    {
      PagesPartition(|mapped|, o);
      PageOfDemanded(mapped, o);
    }
    AcceptedIff(mapped, fewest);
    if Spanned(mapped, fewest, off, len) {
      forall o: nat | off <= o < off + len
        ensures OnDemandedPage(mapped, o)
      {
        assert OnValidPage(mapped, fewest, o);
      }
    }
  }

  lemma PageOfDemanded(mapped: seq<u8>, o: nat)
    requires Shaped(mapped) && Demanded(mapped, o)
    ensures PageDemanded(mapped, o / PAGE)
  {
    hide Shaped, Demanded;
  }

  lemma DemandedSpanned(mapped: seq<u8>, validPages: seq<bool>, off: nat, len: nat)
    requires DumpComplete(mapped, validPages) && Shaped(mapped) && OnDemandedPages(mapped, off, len)
    ensures Spanned(mapped, validPages, off, len)
  {
    hide ParseHeaders, Demanded, DumpComplete, Shaped;
    AcceptedIff(mapped, validPages);
    forall o: nat | off <= o < off + len
      ensures OnValidPage(mapped, validPages, o)
    {
      assert OnDemandedPage(mapped, o);
      var d: nat :| d / PAGE == o / PAGE && Demanded(mapped, d);
      assert OnValidPage(mapped, validPages, d);
    }
  }

  lemma DemandedDelivers(image: seq<u8>, validPages: seq<bool>, log: seq<Read>, off: nat, len: nat)
    requires forall p :: 0 <= p < |validPages| ==> (validPages[p] <==> PageCaptured(log, |image|, p))
    requires DumpComplete(image, validPages) && Shaped(image) && OnDemandedPages(image, off, len)
    ensures forall o :: off <= o < off + len ==> Delivers(image, log, o)
  {
    hide DumpComplete, OnDemandedPages, OnValidPage, Delivers, PageCaptured;
    DemandedSpanned(image, validPages, off, len);
    forall o | off <= o < off + len
      ensures Delivers(image, log, o)
    {
      ValidDelivers(image, validPages, log, o);
    }
  }

  lemma ValidDelivers(image: seq<u8>, validPages: seq<bool>, log: seq<Read>, o: nat)
    requires OnValidPage(image, validPages, o)
    requires forall p :: 0 <= p < |validPages| ==> (validPages[p] <==> PageCaptured(log, |image|, p))
    ensures Delivers(image, log, o)
  {
    hide Captured;
    PagesPartition(|image|, o);
    assert PageCaptured(log, |image|, o / PAGE);
  }

  // ---------------------------------------------------------------------------
  // Headers as they are laid out.

  /** The bytes at the offset are this word, least significant byte first. */
  ghost predicate Word16(mapped: seq<u8>, off: nat, v: nat) {
    off + 2 <= |mapped| && v < 0x1_0000 && mapped[off] == v % 0x100 && mapped[off + 1] == v / 0x100
  }

  ghost predicate Word32(mapped: seq<u8>, off: nat, v: nat) {
    && off + 4 <= |mapped| && v < 0x1_0000_0000
    && mapped[off] == v % 0x100 && mapped[off + 1] == v / 0x100 % 0x100
    && mapped[off + 2] == v / 0x100 / 0x100 % 0x100 && mapped[off + 3] == v / 0x100 / 0x100 / 0x100
  }

  /** What is read at an offset is the word that is there. */
  lemma WordsAre(mapped: seq<u8>, off: nat, v: nat)
    ensures U16At(mapped, off) == Some(v) <==> Word16(mapped, off, v)
    ensures U32At(mapped, off) == Some(v) <==> Word32(mapped, off, v)
    ensures U16At(mapped, off).None? <==> |mapped| < off + 2
    ensures U32At(mapped, off).None? <==> |mapped| < off + 4
  {
    if off + 4 <= |mapped| {
      FourBytes(mapped[off], mapped[off + 1], mapped[off + 2], mapped[off + 3], v);
    }
  }

  lemma FourBytes(a: u8, b: u8, c: u8, d: u8, v: nat)
    ensures v == (a as int) + 0x100 * (b as int) + 0x1_0000 * (c as int) + 0x100_0000 * (d as int) <==>
            v < 0x1_0000_0000 && a == v % 0x100 && b == v / 0x100 % 0x100 && c == v / 0x100 / 0x100 % 0x100 &&
            d == v / 0x100 / 0x100 / 0x100
  {
    var w := b as int + 0x100 * (c as int + 0x100 * (d as int));
    var x := c as int + 0x100 * (d as int);
    LowByte(a, w);
    LowByte(b, x);
    LowByte(c, d);
    if v < 0x1_0000_0000 {
      Recompose(v);
      Recompose(v / 0x100);
      Recompose(v / 0x100 / 0x100);
    }
  }

  lemma LowByte(low: u8, high: nat)
    ensures (low + 0x100 * high) % 0x100 == low && (low + 0x100 * high) / 0x100 == high
  {
  }

  lemma Recompose(v: nat)
    ensures v == v % 0x100 + 0x100 * (v / 0x100)
  {
  }

  datatype SectionHeader = SectionHeader(virtualSize: nat, rva: nat, rawSize: nat)

  datatype Layout = Layout(pe: nat, optionalSize: nat, sizeHeaders: nat, sections: seq<SectionHeader>)
  {
    function Table(): nat {
      pe + 24 + optionalSize
    }

    ghost predicate Spans(i: nat, o: int)
      requires i < |sections|
    {
      sections[i].rva <= o < sections[i].rva + Max(sections[i].virtualSize, sections[i].rawSize)
    }
  }

  /** The image has these headers, where the PE format puts them. */
  ghost predicate LaidOut(mapped: seq<u8>, l: Layout) {
    && 0x40 <= |mapped| && mapped[0] == 'M' as int && mapped[1] == 'Z' as int
    && Word32(mapped, 0x3C, l.pe) && Word32(mapped, l.pe, 0x4550)
    && Word16(mapped, l.pe + 6, |l.sections|) && Word16(mapped, l.pe + 20, l.optionalSize)
    && Word32(mapped, l.pe + 84, l.sizeHeaders)
    && forall i :: 0 <= i < |l.sections| ==> HeaderAt(mapped, l.Table(), i, l.sections[i])
  }

  ghost predicate HeaderAt(mapped: seq<u8>, table: nat, i: nat, s: SectionHeader) {
    && Word32(mapped, table + 40 * i + 8, s.virtualSize)
    && Word32(mapped, table + 40 * i + 12, s.rva)
    && Word32(mapped, table + 40 * i + 16, s.rawSize)
  }

  ghost predicate Marked(mapped: seq<u8>, validPages: seq<bool>, o: int) {
    0 <= o < |mapped| && o / 0x1000 < |validPages| && validPages[o / 0x1000]
  }

  /**
    Its headers fit the image, and every byte of the first page, of the stated headers and of each section, up to
    the larger of its two sizes, lies in the image on a page that is marked.
   */
  ghost predicate Covers(mapped: seq<u8>, validPages: seq<bool>, l: Layout) {
    && |l.sections| <= 96 && l.Table() + 40 * |l.sections| <= |mapped|
    && (forall o :: 0 <= o < Max(Min(|mapped|, 0x1000), l.sizeHeaders) ==> Marked(mapped, validPages, o))
    && (forall i, o :: 0 <= i < |l.sections| && l.Spans(i, o) ==> Marked(mapped, validPages, o))
  }

  lemma ParsedIsLaidOut(mapped: seq<u8>, l: Layout)
    requires LaidOut(mapped, l)
    ensures ParseHeaders(mapped) == Some(Headers(|l.sections|, l.Table(), l.sizeHeaders))
  {
    hide U32At, U16At, Word32, Word16, HeaderAt;
    WordsAre(mapped, 0x3C, l.pe);
    WordsAre(mapped, l.pe, 0x4550);
    WordsAre(mapped, l.pe + 6, |l.sections|);
    WordsAre(mapped, l.pe + 20, l.optionalSize);
    WordsAre(mapped, l.pe + 84, l.sizeHeaders);
  }

  lemma SectionIsLaidOut(mapped: seq<u8>, l: Layout, i: nat, o: nat)
    requires i < |l.sections| && HeaderAt(mapped, l.Table(), i, l.sections[i])
    ensures InSection(mapped, l.Table(), i, o) <==> l.Spans(i, o)
  {
    hide U32At, U16At, Word32, Word16;
    WordsAre(mapped, l.Table() + 40 * i + 8, l.sections[i].virtualSize);
    WordsAre(mapped, l.Table() + 40 * i + 12, l.sections[i].rva);
    WordsAre(mapped, l.Table() + 40 * i + 16, l.sections[i].rawSize);
  }

  /** For any headers laid out in an image, acceptance is coverage. */
  lemma LaidOutAcceptance(mapped: seq<u8>, validPages: seq<bool>, l: Layout)
    requires LaidOut(mapped, l)
    ensures DumpComplete(mapped, validPages) <==> Covers(mapped, validPages, l)
  {
    hide ParseHeaders, InSection, DumpComplete, U32At, U16At, Word32, Word16, HeaderAt;
    ParsedIsLaidOut(mapped, l);
    AcceptedIff(mapped, validPages);
    if Shaped(mapped) {
      DemandedParts(mapped, validPages);
      forall i: nat, o: nat | i < |l.sections|
        ensures InSection(mapped, l.Table(), i, o) <==> l.Spans(i, o)
      {
        SectionIsLaidOut(mapped, l, i, o);
      }
      assert forall o: nat :: OnValidPage(mapped, validPages, o) <==> Marked(mapped, validPages, o);
      if Covers(mapped, validPages, l) {
        forall i: nat, o: nat | i < |l.sections| && InSection(mapped, l.Table(), i, o)
          ensures OnValidPage(mapped, validPages, o)
        {
          assert l.Spans(i, o) && Marked(mapped, validPages, o);
        }
      }
      if DumpComplete(mapped, validPages) {
        forall i, o | 0 <= i < |l.sections| && l.Spans(i, o)
          ensures Marked(mapped, validPages, o)
        {
          assert InSection(mapped, l.Table(), i, o);
        }
      }
    }
  }

  /** The headers an image with readable ones has. */
  ghost function LayoutOf(mapped: seq<u8>): Layout
    requires Shaped(mapped)
  {
    var h := ParseHeaders(mapped).value;
    Layout(U32At(mapped, 0x3C).value, U16At(mapped, U32At(mapped, 0x3C).value + 20).value, h.sizeHeaders,
           seq(h.sections, i requires 0 <= i < h.sections =>
             HeaderFieldsExist(mapped, i);
             SectionHeader(U32At(mapped, h.table + i * 40 + 8).value, U32At(mapped, h.table + i * 40 + 12).value,
                           U32At(mapped, h.table + i * 40 + 16).value)))
  }

  lemma ShapedIsLaidOut(mapped: seq<u8>)
    requires Shaped(mapped)
    ensures LaidOut(mapped, LayoutOf(mapped))
  {
    hide U32At, U16At, Word32, Word16;
    var h, l := ParseHeaders(mapped).value, LayoutOf(mapped);
    WordsAre(mapped, 0x3C, l.pe);
    WordsAre(mapped, l.pe, 0x4550);
    WordsAre(mapped, l.pe + 6, |l.sections|);
    WordsAre(mapped, l.pe + 20, l.optionalSize);
    WordsAre(mapped, l.pe + 84, l.sizeHeaders);
    forall i | 0 <= i < |l.sections|
      ensures HeaderAt(mapped, l.Table(), i, l.sections[i])
    {
      HeaderFieldsExist(mapped, i);
      WordsAre(mapped, l.Table() + 40 * i + 8, l.sections[i].virtualSize);
      WordsAre(mapped, l.Table() + 40 * i + 12, l.sections[i].rva);
      WordsAre(mapped, l.Table() + 40 * i + 16, l.sections[i].rawSize);
    }
  }

  /** A dump is accepted exactly when it has headers and is covered as they say. */
  lemma CompleteIff(mapped: seq<u8>, validPages: seq<bool>)
    ensures DumpComplete(mapped, validPages) <==> exists l :: LaidOut(mapped, l) && Covers(mapped, validPages, l)
  {
    hide DumpComplete, LaidOut, Covers, Shaped, LayoutOf;
    AcceptedIff(mapped, validPages);
    if DumpComplete(mapped, validPages) {
      ShapedIsLaidOut(mapped);
      LaidOutAcceptance(mapped, validPages, LayoutOf(mapped));
    }
    if l :| LaidOut(mapped, l) && Covers(mapped, validPages, l) {
      LaidOutAcceptance(mapped, validPages, l);
    }
  }

  // ---------------------------------------------------------------------------
  // What acceptance is worth.

  /** The verdict asks for the byte: it is in the first page, the stated headers or a listed section. */
  ghost predicate Asked(mapped: seq<u8>, l: Layout, o: nat) {
    o < Max(Min(|mapped|, 0x1000), l.sizeHeaders) || exists i: nat :: i < |l.sections| && l.Spans(i, o)
  }

  ghost predicate PageAsked(mapped: seq<u8>, l: Layout, page: nat) {
    exists o: nat :: o / 0x1000 == page && Asked(mapped, l, o)
  }

  ghost predicate OnAskedPage(mapped: seq<u8>, l: Layout, o: nat) {
    o < |mapped| && PageAsked(mapped, l, o / 0x1000)
  }

  /** Some marks are accepted: at most 96 sections, the table in the image, and everything asked for as well. */
  ghost predicate Possible(mapped: seq<u8>, l: Layout) {
    && |l.sections| <= 96 && l.Table() + 40 * |l.sections| <= |mapped|
    && forall o: nat :: Asked(mapped, l, o) ==> o < |mapped|
  }

  lemma AskedIsDemanded(mapped: seq<u8>, l: Layout)
    requires LaidOut(mapped, l) && Shaped(mapped)
    ensures forall o: nat :: Demanded(mapped, o) <==> Asked(mapped, l, o)
    ensures forall o: nat :: OnDemandedPage(mapped, o) <==> OnAskedPage(mapped, l, o)
  {
    hide ParseHeaders, InSection, U32At, U16At, Word32, Word16, HeaderAt;
    ParsedIsLaidOut(mapped, l);
    forall o: nat
      ensures Demanded(mapped, o) <==> Asked(mapped, l, o)
    {
      forall i: nat | i < |l.sections|
        ensures InSection(mapped, l.Table(), i, o) <==> l.Spans(i, o)
      {
        SectionIsLaidOut(mapped, l, i, o);
      }
    }
  }

  lemma PossibleIsAcceptable(mapped: seq<u8>, l: Layout)
    requires LaidOut(mapped, l)
    ensures Acceptable(mapped) <==> Possible(mapped, l)
  {
    hide ParseHeaders, Demanded, Asked, U32At, U16At, Word32, Word16, HeaderAt;
    ParsedIsLaidOut(mapped, l);
    if Shaped(mapped) {
      AskedIsDemanded(mapped, l);
    }
  }

  /**
    Whatever the marks, acceptance puts a span on marked pages exactly when every page the span touches is touched
    by the first page, the stated headers or a listed section. The section table and the PE header are such spans.
   */
  lemma VerdictTrustedIff(mapped: seq<u8>, l: Layout, off: nat, len: nat)
    requires LaidOut(mapped, l)
    ensures (forall validPages :: Covers(mapped, validPages, l) ==> Spanned(mapped, validPages, off, len)) <==>
            (Possible(mapped, l) ==> forall o: nat :: off <= o < off + len ==> OnAskedPage(mapped, l, o))
  {
    hide DumpComplete, Spanned, Acceptable, OnDemandedPage, OnAskedPage, LaidOut, Covers, Possible, Shaped;
    TrustedIff(mapped, off, len);
    PossibleIsAcceptable(mapped, l);
    forall validPages
      ensures DumpComplete(mapped, validPages) <==> Covers(mapped, validPages, l)
    {
      LaidOutAcceptance(mapped, validPages, l);
    }
    if Acceptable(mapped) {
      AcceptableIsShaped(mapped);
      AskedIsDemanded(mapped, l);
    }
  }

  lemma AcceptableIsShaped(mapped: seq<u8>)
    requires Acceptable(mapped)
    ensures Shaped(mapped)
  {
  }

  /**
    The composition: a capture over disjoint regions that is accepted has really delivered every byte of the
    headers and of every section its table lists, and with them every byte on a page that was asked for: the table
    and the PE header among them exactly under the condition above.
   */
  lemma AcceptedMeansCaptured(image: seq<u8>, validPages: seq<bool>, log: seq<Read>, l: Layout, o: nat)
    requires forall p :: 0 <= p < |validPages| ==> (validPages[p] <==> PageCaptured(log, |image|, p))
    requires LaidOut(image, l) && Covers(image, validPages, l)
    ensures Asked(image, l, o) ==> Delivers(image, log, o)
    ensures OnAskedPage(image, l, o) ==> Delivers(image, log, o)
  {
    hide DumpComplete, OnValidPage, Delivers, PageCaptured, LaidOut, Covers, Demanded, Asked, OnDemandedPage, OnAskedPage, Shaped;
    LaidOutAcceptance(image, validPages, l);
    AcceptedIff(image, validPages);
    AskedIsDemanded(image, l);
    if Asked(image, l, o) {
      ValidDelivers(image, validPages, log, o);
    }
    if OnAskedPage(image, l, o) {
      OneByteDelivers(image, validPages, log, o);
    }
  }

  lemma OneByteDelivers(image: seq<u8>, validPages: seq<bool>, log: seq<Read>, o: nat)
    requires forall p :: 0 <= p < |validPages| ==> (validPages[p] <==> PageCaptured(log, |image|, p))
    requires DumpComplete(image, validPages) && Shaped(image) && OnDemandedPage(image, o)
    ensures Delivers(image, log, o)
  {
    hide DumpComplete, OnValidPage, Delivers, PageCaptured, OnDemandedPage, Shaped;
    assert OnDemandedPages(image, o, 1);
    DemandedDelivers(image, validPages, log, o, 1);
  }

  // A process whose section table is accepted unread.

  /** A header at 0x40 with one section, an optional header of 0xFF0 bytes and a page of headers. */
  function HeaderByte(o: nat): u8 {
    if o == 0 then 0x4D else if o == 1 then 0x5A else if o == 0x3C then 0x40
    else if o == 0x40 then 0x50 else if o == 0x41 then 0x45 else if o == 0x46 then 1
    else if o == 0x54 then 0xF0 else if o == 0x55 then 0x0F else if o == 0x95 then 0x10 else 0
  }

  function FirstPage(): (bytes: seq<u8>)
    ensures |bytes| == PAGE && forall o :: 0 <= o < PAGE ==> bytes[o] == HeaderByte(o)
  {
    seq(PAGE, o requires 0 <= o => HeaderByte(o))
  }

  /** One region of two pages, of which the second cannot be read. */
  function FirstPageOnly(): Debugger {
    Debugger([Region(0x10000, 0x2000, true)],
             (call: nat, at: nat, want: nat) => if at == 0x10000 && PAGE <= want then FirstPage() else [])
  }

  /** What such a read leaves: the first page, and zeros nobody delivered. */
  ghost function HalfImage(): (image: seq<u8>)
    ensures |image| == 0x2000 && forall o :: 0 <= o < 0x2000 ==> image[o] == HeaderByte(o)
  {
    seq(0x2000, o requires 0 <= o => HeaderByte(o))
  }

  lemma HalfHeaders()
    ensures ParseHeaders(HalfImage()) == Some(Headers(1, 0x1048, 0x1000))
    ensures U32At(HalfImage(), 0x1050) == Some(0) && U32At(HalfImage(), 0x1054) == Some(0) && U32At(HalfImage(), 0x1058) == Some(0)
  {
  }

  lemma HalfLayout()
    ensures LaidOut(HalfImage(), Layout(0x40, 0xFF0, 0x1000, [SectionHeader(0, 0, 0)]))
  {
  }

  lemma FirstPageReads()
    ensures AllReads(FirstPageOnly(), 0x10000, 0x2000, 0, 0) == [Read(0, FirstPage(), 0, 0, 0x2000)]
  {
    hide RegionReads, AllReads;
    var dbg := FirstPageOnly();
    AllReadsStep(dbg, 0x10000, 0x2000, 0, 0);
    AllReadsStep(dbg, 0x10000, 0x2000, 1, 1);
    RegionReadsStep(dbg, 0x10000, 0x2000, 0, 0, 0x10000);
  }

  /** The dump of this process is accepted although nobody read the page its section table is on. */
  lemma TableUnread()
    ensures FirstPageOnly().Sound() && DisjointRegions(FirstPageOnly().regions)
    ensures var log := AllReads(FirstPageOnly(), 0x10000, 0x2000, 0, 0);
            && (forall o :: 0 <= o < 0x2000 ==> HalfImage()[o] == Content(log, o))
            && PageCaptured(log, 0x2000, 0) && !Captured(log, 0x1048)
    ensures LaidOut(HalfImage(), Layout(0x40, 0xFF0, 0x1000, [SectionHeader(0, 0, 0)]))
    ensures DumpComplete(HalfImage(), [true, false])
  {
    hide AllReads, ParseHeaders, U32At, LaidOut;
    HalfHeaders();
    HalfLayout();
    FirstPageReads();
  }
}
