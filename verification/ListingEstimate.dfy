/** The constant-work guess of a far page's continuation, and the search for readable context before it. */
module ListingEstimate {
  import opened Machine
  import opened ListingDecode

  const ESTIMATE_WINDOW: nat := 15

  datatype PrefixEstimate = PrefixEstimate(prefixSkip: u32, decodeCalls: nat, candidates: nat, bytesExamined: nat)

  /** Where a decode from `off` first passes the page, if every row on the way decodes. */
  ghost function Trace(c: Code, off: nat, page: nat, bound: nat): (end: Option<nat>)
    requires c.Spans(page, bound)
    ensures end.Some? && off <= page ==> page <= end.value <= bound
    decreases page - off
  {
    if off >= page then Some(off)
    else
      match c.d.Accepted(c.bytes[off..bound], c.base + off)
      case None => None
      case Some(insn) => Trace(c, off + insn.length, page, bound)
  }

  /** Decoder calls a trace makes; each advances by at least one byte. */
  ghost function TraceCalls(c: Code, off: nat, page: nat, bound: nat): (calls: nat)
    requires c.Spans(page, bound)
    ensures off <= page ==> calls <= page - off
    decreases page - off
  {
    if off >= page then 0
    else
      match c.d.Accepted(c.bytes[off..bound], c.base + off)
      case None => 1
      case Some(insn) => 1 + TraceCalls(c, off + insn.length, page, bound)
  }

  /** Candidate starts lie `align` bytes apart before `page`; their windows end at `bound`. */
  datatype Ballot = Ballot(c: Code, page: nat, bound: nat, align: nat)
  {
    ghost predicate Valid() {
      c.Spans(page, bound) && 0 < align
    }
  }

  /** The candidate at `off` survives and continues `skip` bytes into the page. */
  ghost predicate VotesFor(b: Ballot, off: nat, skip: nat)
    requires b.Valid()
  {
    Trace(b.c, off, b.page, b.bound) == Some(b.page + skip)
  }

  /** Votes for `skip` among the candidates from `off` on. */
  ghost function Votes(b: Ballot, off: nat, skip: nat): nat
    requires b.Valid()
    decreases b.page - off
  {
    if off >= b.page then 0 else (if VotesFor(b, off, skip) then 1 else 0) + Votes(b, off + b.align, skip)
  }

  /** Look-behind bytes of those votes. */
  ghost function Evidence(b: Ballot, off: nat, skip: nat): nat
    requires b.Valid()
    decreases b.page - off
  {
    if off >= b.page then 0
    else (if VotesFor(b, off, skip) then b.page - off else 0) + Evidence(b, off + b.align, skip)
  }

  ghost function Survivors(b: Ballot, off: nat): nat
    requires b.Valid()
    decreases b.page - off
  {
    if off >= b.page then 0
    else (if Trace(b.c, off, b.page, b.bound).Some? then 1 else 0) + Survivors(b, off + b.align)
  }

  /** Decoder calls over all candidates from `off` on. */
  ghost function AllCalls(b: Ballot, off: nat): nat
    requires b.Valid()
    decreases b.page - off
  {
    if off >= b.page then 0 else TraceCalls(b.c, off, b.page, b.bound) + AllCalls(b, off + b.align)
  }

  /** Votes for every skip below `skips`. */
  ghost function VotesUpTo(b: Ballot, off: nat, skips: nat): nat
    requires b.Valid()
    decreases skips
  {
    if skips == 0 then 0 else VotesUpTo(b, off, skips - 1) + Votes(b, off, skips - 1)
  }

  /** A candidate adds exactly one vote when it survives with one of the counted skips. */
  lemma {:induction false} OneMoreVote(b: Ballot, off: nat, skips: nat)
    requires b.Valid() && off < b.page
    ensures var end := Trace(b.c, off, b.page, b.bound);
            VotesUpTo(b, off, skips) ==
            VotesUpTo(b, off + b.align, skips) + (if end.Some? && end.value < b.page + skips then 1 else 0)
    decreases skips
  {
    hide Trace;
    if skips > 0 {
      OneMoreVote(b, off, skips - 1);
    }
  }

  lemma {:induction false} NoVotesLeft(b: Ballot, off: nat, skips: nat)
    requires b.Valid() && b.page <= off
    ensures VotesUpTo(b, off, skips) == 0
    decreases skips
  {
    if skips > 0 {
      NoVotesLeft(b, off, skips - 1);
    }
  }

  /** The votes over all skips the windows allow add up to the surviving candidates. */
  lemma {:induction false} VotesSumToSurvivors(b: Ballot, off: nat, skips: nat)
    requires b.Valid() && b.bound < b.page + skips
    ensures VotesUpTo(b, off, skips) == Survivors(b, off)
    decreases b.page - off
  {
    hide Trace;
    if off >= b.page {
      NoVotesLeft(b, off, skips);
    } else {
      VotesSumToSurvivors(b, off + b.align, skips);
      OneMoreVote(b, off, skips);
    }
  }

  /** Fewer votes, or as many with no more evidence. */
  ghost predicate NotAbove(b: Ballot, first: nat, s: nat, t: nat)
    requires b.Valid()
  {
    || Votes(b, first, s) < Votes(b, first, t)
    || (Votes(b, first, s) == Votes(b, first, t) && Evidence(b, first, s) <= Evidence(b, first, t))
  }

  /** The first of `skips` counts that no other one is above. */
  ghost predicate Wins(b: Ballot, first: nat, best: nat, skips: nat)
    requires b.Valid()
  {
    && best < skips
    && (forall s :: 0 <= s < skips ==> NotAbove(b, first, s, best))
    && (forall s :: 0 <= s < best ==> !NotAbove(b, first, best, s))
  }

  function Triangle(n: nat): nat {
    if n == 0 then 0 else n + Triangle(n - 1)
  }

  lemma {:induction false} TriangleMonotone(m: nat, n: nat)
    requires m <= n
    ensures Triangle(m) <= Triangle(n)
  {
    if m < n {
      TriangleMonotone(m, n - 1);
    }
  }

  lemma TriangleOfWindow(n: nat)
    requires n <= ESTIMATE_WINDOW
    ensures Triangle(n) <= 120
  {
    TriangleMonotone(n, 15);
    assert Triangle(5) == 15;
    assert Triangle(10) == 55;
    assert Triangle(15) == 120;
  }

  /** How far back candidates reach: whole alignment units within the window and the buffer. */
  function Lookback(limit: nat, align: nat, back: nat): (r: nat)
    requires 0 < align
    ensures r <= limit && r <= back
    ensures r == Min(limit, back) / align * align && Min(limit, back) < r + align
  {
    RemainderAtMost(Min(limit, back), align);
    Min(limit, back) - Min(limit, back) % align
  }

  lemma RemainderAtMost(n: nat, d: nat)
    requires 0 < d
    ensures n % d <= n && n % d < d && n - n % d == n / d * d
  {
    if n < d {
      assert n / d == 0;
    }
  }

  method TraceCandidate(c: Code, from: nat, page: nat, bound: nat) returns (end: Option<nat>, calls: nat)
    requires c.Spans(page, bound) && from < page
    ensures end == Trace(c, from, page, bound)
    ensures calls == TraceCalls(c, from, page, bound)
  {
    var off := from;
    calls := 0;
    while off < page
      invariant Trace(c, off, page, bound) == Trace(c, from, page, bound)
      invariant calls + TraceCalls(c, off, page, bound) == TraceCalls(c, from, page, bound)
      decreases page - off
    {
      calls := calls + 1;
      match c.d.Accepted(c.bytes[off..bound], c.base + off) {
        case None =>
          return None, calls;
        case Some(insn) =>
          off := off + insn.length;
      }
    }
    end := Some(off);
  }

  /** Every candidate from `first` on is traced once and its vote recorded. */
  method CastVotes(b: Ballot, first: nat, limit: nat)
    returns (votes: seq<nat>, evidence: seq<nat>, candidates: nat, calls: nat)
    requires b.Valid() && first <= b.page && b.bound <= b.page + limit
    ensures |votes| == |evidence| == limit + 1
    ensures forall s :: 0 <= s <= limit ==> votes[s] == Votes(b, first, s) && evidence[s] == Evidence(b, first, s)
    ensures candidates == Survivors(b, first) <= b.page - first
    ensures calls == AllCalls(b, first) <= Triangle(b.page - first)
  {
    hide Trace, TraceCalls, AllCalls, Votes, Evidence, Survivors;
    votes, evidence := seq(limit + 1, _ => 0), seq(limit + 1, _ => 0);
    candidates, calls := 0, 0;
    var candidate := first;
    while candidate < b.page
      invariant first <= candidate && |votes| == |evidence| == limit + 1
      invariant forall s :: 0 <= s <= limit ==> votes[s] + Votes(b, candidate, s) == Votes(b, first, s)
      invariant forall s :: 0 <= s <= limit ==> evidence[s] + Evidence(b, candidate, s) == Evidence(b, first, s)
      invariant candidates + Survivors(b, candidate) == Survivors(b, first)
      invariant candidates <= Min(candidate, b.page) - first
      invariant calls + AllCalls(b, candidate) == AllCalls(b, first)
      invariant calls + Triangle(Max(0, b.page - candidate)) <= Triangle(b.page - first)
      decreases b.page - candidate
    {
      var end, cost := TraceCandidate(b.c, candidate, b.page, b.bound);
      TallyStep(b, candidate);
      calls := calls + cost;
      if end.Some? {
        var skip := end.value - b.page;
        candidates := candidates + 1;
        votes := votes[skip := votes[skip] + 1];
        evidence := evidence[skip := evidence[skip] + (b.page - candidate)];
      }
      TriangleMonotone(Max(0, b.page - candidate - b.align), b.page - candidate - 1);
      candidate := candidate + b.align;
    }
    TallyEnd(b, candidate);
  }

  /** What the candidate at `off` adds to each tally. */
  lemma TallyStep(b: Ballot, off: nat)
    requires b.Valid() && off < b.page
    ensures var end := Trace(b.c, off, b.page, b.bound);
            && (forall s: nat :: Votes(b, off, s) ==
                  (if end == Some(b.page + s) then 1 else 0) + Votes(b, off + b.align, s))
            && (forall s: nat :: Evidence(b, off, s) ==
                  (if end == Some(b.page + s) then b.page - off else 0) + Evidence(b, off + b.align, s))
            && Survivors(b, off) == (if end.Some? then 1 else 0) + Survivors(b, off + b.align)
            && AllCalls(b, off) == TraceCalls(b.c, off, b.page, b.bound) + AllCalls(b, off + b.align)
  {
    hide Trace;
  }

  lemma TallyEnd(b: Ballot, off: nat)
    requires b.Valid() && b.page <= off
    ensures forall s: nat :: Votes(b, off, s) == 0 && Evidence(b, off, s) == 0
    ensures Survivors(b, off) == 0 && AllCalls(b, off) == 0
  {
  }

  method PickWinner(ghost b: Ballot, ghost first: nat, votes: seq<nat>, evidence: seq<nat>) returns (best: nat)
    requires b.Valid() && 0 < |votes| == |evidence|
    requires forall s :: 0 <= s < |votes| ==> votes[s] == Votes(b, first, s) && evidence[s] == Evidence(b, first, s)
    ensures best < |votes| && Wins(b, first, best, |votes|)
  {
    hide Votes, Evidence;
    best := 0;
    for skip := 1 to |votes|
      invariant best < skip
      invariant forall s: nat :: s < skip ==>
        votes[s] < votes[best] || (votes[s] == votes[best] && evidence[s] <= evidence[best])
      invariant forall s: nat :: s < best ==>
        votes[s] < votes[best] || (votes[s] == votes[best] && evidence[s] < evidence[best])
    {
      if votes[skip] > votes[best] || (votes[skip] == votes[best] && evidence[skip] > evidence[best]) {
        best := skip;
      }
    }
  }

  /** The request can be answered: the page lies in the buffer and at least one candidate lies before it. */
  ghost predicate Estimable(buffer: Option<seq<u8>>, windowAddress: u64, pageAddress: u64, limit: nat, align: nat) {
    && buffer.Some? && 0 < |buffer.value|
    && windowAddress < pageAddress && pageAddress - windowAddress <= |buffer.value|
    && 0 < limit && 0 < align
    && 0 < Lookback(limit, align, pageAddress - windowAddress)
  }

  method EstimateListingPagePrefix(d: Decoder, buffer: Option<seq<u8>>, windowAddress: u64, pageAddress: u64,
                                   maxInstructionBytes: u64, candidateAlignment: u64) returns (out: PrefixEstimate)
    requires buffer.Some? ==> |buffer.value| <= U64_MAX
    ensures out.prefixSkip <= 15 && out.decodeCalls <= 120 && out.candidates <= 15 && out.bytesExamined <= 30
    ensures
      var limit := Min(maxInstructionBytes, 15);
      var align := Max(1, Min(candidateAlignment, limit));
      if Estimable(buffer, windowAddress, pageAddress, limit, align) then
        var page := pageAddress - windowAddress;
        var b := Ballot(Code(d, buffer.value, windowAddress), page, Min(|buffer.value|, page + limit), align);
        var first := page - Lookback(limit, align, page);
        && b.Valid()
        && out.candidates == Survivors(b, first) && out.decodeCalls == AllCalls(b, first)
        && out.bytesExamined == b.bound - first
        && Wins(b, first, out.prefixSkip, limit + 1)
      else out == PrefixEstimate(0, 0, 0, 0)
  {
    hide Votes, Evidence, Survivors, AllCalls, Wins, Triangle;
    out := PrefixEstimate(0, 0, 0, 0);
    if buffer.None? || |buffer.value| == 0 || pageAddress <= windowAddress || maxInstructionBytes == 0 {
      return;
    }
    var available := |buffer.value|;
    var limit := Min(maxInstructionBytes, ESTIMATE_WINDOW);
    var align := Max(1, Min(candidateAlignment, limit));
    var pageOffset := pageAddress - windowAddress;
    var maxBack := Lookback(limit, align, pageOffset);
    if maxBack == 0 || pageOffset > available {
      return;
    }
    var bounded := Min(available, pageOffset + limit);
    var c := Code(d, buffer.value, windowAddress);
    var b := Ballot(c, pageOffset, bounded, align);
    var first := pageOffset - maxBack;
    var votes, evidence, candidates, calls := CastVotes(b, first, limit);
    TriangleOfWindow(maxBack);
    var best := PickWinner(b, first, votes, evidence);
    out := PrefixEstimate(best, calls, candidates, maxBack + (bounded - pageOffset));
  }

  /** Rows the decoder accepts, one after another, from `off` to the first boundary at or past the page. */
  ghost predicate Accepts(c: Code, off: nat, page: nat, bound: nat, rows: seq<Instruction>, end: nat)
    requires c.Spans(page, bound)
  {
    && Decodes(c, off, page, bound, rows, end)
    && forall k :: 0 <= k < |rows| ==> AcceptedAt(c, bound, rows[k])
  }

  ghost predicate AcceptedAt(c: Code, bound: nat, row: Instruction)
    requires bound <= |c.bytes|
  {
    && c.base <= row.address <= c.base + bound
    && var window := c.bytes[row.address - c.base..bound];
    && var answer := c.d.decodeOne(window, row.address);
    answer.Some? && 0 < answer.value.length && answer.value.length <= |window|
  }

  /** A candidate survives exactly when such rows lead from it to the page; they are as many as the calls. */
  lemma {:induction false} TraceIsAccepted(c: Code, off: nat, page: nat, bound: nat, rows: seq<Instruction>, end: nat)
    requires c.Spans(page, bound)
    ensures Accepts(c, off, page, bound, rows, end) ==>
            Trace(c, off, page, bound) == Some(end) && TraceCalls(c, off, page, bound) == |rows|
    ensures Trace(c, off, page, bound) == Some(end) && rows == c.Sweep(off, page, bound).rows ==>
            Accepts(c, off, page, bound, rows, end)
    decreases page - off
  {
    hide Code.Sweep, Decodes;
    DecodesEnd(c, off, page, bound, rows, end);
    SweepIsTheDecode(c, off, page, bound, rows, end);
    if off < page {
      var next := off + c.Row(off, bound).length;
      SweepStep(c, off, page, bound);
      if rows != [] {
        DecodesStep(c, off, page, bound, rows, end);
        TraceIsAccepted(c, next, page, bound, rows[1..], end);
        assert forall k :: 0 <= k < |rows[1..]| ==> rows[1..][k] == rows[k + 1];
        assert forall k :: 1 <= k < |rows| ==> rows[k] == rows[1..][k - 1];
      }
    }
  }

  /** A candidate that does not survive stops at the first row the decoder rejects, one call behind the accepted ones. */
  lemma {:induction false} TraceIsRejected(c: Code, off: nat, page: nat, bound: nat) returns (accepted: nat, at: nat)
    requires c.Spans(page, bound) && Trace(c, off, page, bound).None?
    ensures off <= at < page && TraceCalls(c, off, page, bound) == accepted + 1
    ensures c.d.Accepted(c.bytes[at..bound], c.base + at).None?
    ensures TraceCalls(c, off, at, bound) == accepted && Trace(c, off, at, bound) == Some(at)
    decreases page - off
  {
    match c.d.Accepted(c.bytes[off..bound], c.base + off)
    case None => accepted, at := 0, off;
    case Some(insn) =>
      var k, o := TraceIsRejected(c, off + insn.length, page, bound);
      accepted, at := k + 1, o;
  }

  /** The offsets from `off` on in steps of the alignment, up to the page. */
  ghost function Candidates(b: Ballot, off: nat): set<nat>
    requires b.Valid()
    decreases b.page - off
  {
    if off >= b.page then {} else {off} + Candidates(b, off + b.align)
  }

  lemma {:induction false} CandidatesAre(b: Ballot, off: nat, o: nat, steps: nat)
    requires b.Valid() && o == off + steps * b.align
    ensures o in Candidates(b, off) <==> o < b.page
    ensures forall c :: c in Candidates(b, off) ==> off <= c < b.page
    decreases steps
  {
    if steps > 0 {
      assert o == off + b.align + (steps - 1) * b.align;
      CandidatesAre(b, off + b.align, o, steps - 1);
      CandidatesBehind(b, off + b.align);
    } else {
      CandidatesBehind(b, off);
    }
  }

  lemma {:induction false} CandidatesBehind(b: Ballot, off: nat)
    requires b.Valid()
    ensures forall c :: c in Candidates(b, off) ==> off <= c < b.page
    decreases b.page - off
  {
    if off < b.page {
      CandidatesBehind(b, off + b.align);
    }
  }

  /** The candidates that vote for a skip. */
  ghost function Voters(b: Ballot, off: nat, skip: nat): set<nat>
    requires b.Valid()
  {
    set o | o in Candidates(b, off) && VotesFor(b, o, skip)
  }

  lemma VotersStep(b: Ballot, off: nat, skip: nat)
    requires b.Valid()
    ensures off >= b.page ==> Voters(b, off, skip) == {}
    ensures off < b.page ==> off !in Voters(b, off + b.align, skip)
    ensures off < b.page ==>
              Voters(b, off, skip) == Voters(b, off + b.align, skip) + (if VotesFor(b, off, skip) then {off} else {})
  {
    hide VotesFor;
    CandidatesBehind(b, off + b.align);
  }

  /** The votes for a skip are its voters. */
  lemma {:induction false} VotesAreVoters(b: Ballot, off: nat, skip: nat)
    requires b.Valid()
    ensures Votes(b, off, skip) == |Voters(b, off, skip)|
    decreases b.page - off
  {
    hide VotesFor, Voters;
    VotersStep(b, off, skip);
    if off < b.page {
      VotesAreVoters(b, off + b.align, skip);
    }
  }

  ghost function Surviving(b: Ballot, off: nat): set<nat>
    requires b.Valid()
  {
    set o | o in Candidates(b, off) && Trace(b.c, o, b.page, b.bound).Some?
  }

  lemma SurvivingStep(b: Ballot, off: nat)
    requires b.Valid()
    ensures off >= b.page ==> Surviving(b, off) == {}
    ensures off < b.page ==> off !in Surviving(b, off + b.align)
    ensures off < b.page ==>
              Surviving(b, off) == Surviving(b, off + b.align) + (if Trace(b.c, off, b.page, b.bound).Some? then {off} else {})
  {
    hide Trace;
    CandidatesBehind(b, off + b.align);
  }

  /** The survivors are the candidates whose trace survives. */
  lemma {:induction false} SurvivorsAre(b: Ballot, off: nat)
    requires b.Valid()
    ensures Survivors(b, off) == |Surviving(b, off)|
    decreases b.page - off
  {
    hide Trace, Surviving;
    SurvivingStep(b, off);
    if off < b.page {
      SurvivorsAre(b, off + b.align);
    }
  }

  /** Evidence is the look-behind of the voters: of the only one, of each at least, and never more than all could have. */
  lemma {:induction false} EvidenceIs(b: Ballot, off: nat, skip: nat)
    requires b.Valid()
    ensures Voters(b, off, skip) == {} ==> Evidence(b, off, skip) == 0
    ensures forall o :: Voters(b, off, skip) == {o} ==> Evidence(b, off, skip) == b.page - o
    ensures forall o :: o in Voters(b, off, skip) ==> b.page - o <= Evidence(b, off, skip)
    ensures Evidence(b, off, skip) <= |Voters(b, off, skip)| * (b.page - Min(off, b.page))
    decreases b.page - off
  {
    hide VotesFor, Voters;
    VotersStep(b, off, skip);
    if off < b.page {
      var next := off + b.align;
      var rest := Voters(b, next, skip);
      EvidenceIs(b, next, skip);
      VotersBehind(b, next, skip);
      SmallerShare(|rest|, b.page - Min(next, b.page), b.page - off);
      OneMoreShare(|rest|, b.page - off);
    }
  }

  lemma VotersBehind(b: Ballot, off: nat, skip: nat)
    requires b.Valid()
    ensures forall o :: o in Voters(b, off, skip) ==> off <= o < b.page
  {
    hide VotesFor;
    CandidatesBehind(b, off);
  }

  lemma SmallerShare(n: nat, x: nat, y: nat)
    requires x <= y
    ensures n * x <= n * y
  {
  }

  lemma OneMoreShare(n: nat, x: nat)
    ensures n * x + x == (n + 1) * x
  {
  }

  /** A surviving trace is the linear decode, so it ends where the exact decode enters the page. */
  lemma {:induction false} TraceIsExact(c: Code, m: nat, off: nat, page: nat, bound: nat)
    requires c.Spans(page, |c.bytes|) && KeepsLookahead(c, m, page, bound, |c.bytes|)
    requires off <= page && Trace(c, off, page, bound).Some?
    ensures Trace(c, off, page, bound).value == c.Linear(off, page).end
    decreases page - off
  {
    SweepWindow(c, m, off, page, bound, |c.bytes|);
    TraceIsSweep(c, off, page, bound);
  }

  lemma {:induction false} TraceIsSweep(c: Code, off: nat, page: nat, bound: nat)
    requires c.Spans(page, bound) && Trace(c, off, page, bound).Some?
    ensures Trace(c, off, page, bound).value == c.Sweep(off, page, bound).end
    decreases page - off
  {
    if off < page {
      TraceIsSweep(c, off + c.Row(off, bound).length, page, bound);
    }
  }

  /** A surviving candidate on the true instruction stream votes for the exact continuation. */
  lemma StreamCandidateVotesExact(b: Ballot, m: nat, start: nat, off: nat)
    requires b.Valid() && b.c.Spans(b.page, |b.c.bytes|) && KeepsLookahead(b.c, m, b.page, b.bound, |b.c.bytes|)
    requires start <= off < b.page && b.c.Linear(start, off).end == off
    requires Trace(b.c, off, b.page, b.bound).Some?
    ensures b.page <= b.c.Linear(start, b.page).end
    ensures VotesFor(b, off, b.c.Linear(start, b.page).end - b.page)
    ensures 0 < Votes(b, off, b.c.Linear(start, b.page).end - b.page)
  {
    TraceIsExact(b.c, m, off, b.page, b.bound);
    SweepSplit(b.c, start, off, b.page, |b.c.bytes|);
  }

  // ---------------------------------------------------------------------------
  // Readable context.

  /** Binary search for the longest readable suffix; readability can only be lost by asking for more. */
  method LongestReadableLookback(requested: nat, readable: Option<nat -> bool>) returns (length: nat)
    ensures readable.None? ==> length == 0
    ensures length <= requested
    ensures readable.Some? && 0 < length ==> readable.value(length)
    ensures readable.Some? && (forall a, b :: 0 < a <= b && readable.value(b) ==> readable.value(a)) ==>
      forall n :: length < n <= requested ==> !readable.value(n)
  {
    if requested == 0 || readable.None? {
      return 0;
    }
    var accepts := readable.value;
    if accepts(requested) {
      return requested;
    }
    var good: nat, bad: nat := 0, requested;
    while good + 1 < bad
      invariant good < bad <= requested && !accepts(bad)
      invariant 0 < good ==> accepts(good)
    {
      var candidate: nat := good + (bad - good) / 2;
      if accepts(candidate) {
        good := candidate;
      } else {
        bad := candidate;
      }
    }
    length := if good == 0 || !accepts(good) then 0 else good;
  }
}
