/** Classified byte spans: the sorted partition every listing pass reads. */
module CodeData {
  import opened Machine

  /** `OutOfRange` stands for any enumerator above `Data` in a hostile map. */
  datatype Kind = Unknown | Code | String | LiteralPool | JumpTable | PointerTable | Padding | Data | OutOfRange

  datatype Confidence = Low | Medium | High

  datatype Attributes = Attributes(kind: Kind, elementWidth: u8, confidence: Confidence, evidence: string)

  datatype Span = Span(address: u64, size: u64, attributes: Attributes)
  {
    function End(): nat {
      address + size
    }

    predicate Contains(a: int) {
      address <= a < End()
    }
  }

  predicate IsData(kind: Kind) {
    kind != Unknown && kind != Code
  }

  /** Non-empty, disjoint, ascending spans at or after `from` whose bytes all have addresses. */
  ghost predicate Partition(spans: seq<Span>, from: nat) {
    spans == [] ||
    (from <= spans[0].address && 0 < spans[0].size && spans[0].End() <= U64_LIMIT && Partition(spans[1..], spans[0].End()))
  }

  /** What the map says about one byte. */
  ghost function At(spans: seq<Span>, a: int): Option<Attributes> {
    if spans == [] then None else if spans[0].Contains(a) then Some(spans[0].attributes) else At(spans[1..], a)
  }

  /** Bytes covered. */
  ghost function Total(spans: seq<Span>): nat {
    if spans == [] then 0 else spans[0].size + Total(spans[1..])
  }

  ghost function EndOf(spans: seq<Span>, from: nat): nat {
    if spans == [] then from else spans[|spans| - 1].End()
  }

  lemma {:induction false} AtAppend(a: seq<Span>, b: seq<Span>, x: int)
    ensures At(a + b, x) == if At(a, x).Some? then At(a, x) else At(b, x)
  {
    if a == [] {
      assert a + b == b;
    } else {
      AtAppend(a[1..], b, x);
      assert (a + b)[1..] == a[1..] + b;
    }
  }

  lemma {:induction false} TotalAppend(a: seq<Span>, b: seq<Span>)
    ensures Total(a + b) == Total(a) + Total(b)
  {
    if a == [] {
      assert a + b == b;
    } else {
      TotalAppend(a[1..], b);
      assert (a + b)[1..] == a[1..] + b;
    }
  }

  lemma {:induction false} PartitionAppend(a: seq<Span>, b: seq<Span>, from: nat)
    ensures Partition(a + b, from) <==> Partition(a, from) && Partition(b, EndOf(a, from))
  {
    if a == [] {
      assert a + b == b;
    } else {
      PartitionAppend(a[1..], b, a[0].End());
      assert (a + b)[1..] == a[1..] + b;
      assert EndOf(a, from) == EndOf(a[1..], a[0].End());
    }
  }

  lemma {:induction false} PartitionOrder(spans: seq<Span>, from: nat)
    requires Partition(spans, from)
    ensures from <= EndOf(spans, from)
    ensures forall k :: 0 <= k < |spans| ==>
      from <= spans[k].address && 0 < spans[k].size && spans[k].End() <= Min(EndOf(spans, from), U64_LIMIT)
    ensures forall j, k :: 0 <= j < k < |spans| ==> spans[j].End() <= spans[k].address
    ensures forall a :: At(spans, a).Some? ==> from <= a < EndOf(spans, from)
  {
    if spans != [] {
      PartitionOrder(spans[1..], spans[0].End());
      assert forall k :: 0 < k < |spans| ==> spans[k] == spans[1..][k - 1];
      assert EndOf(spans, from) == EndOf(spans[1..], spans[0].End());
    }
  }

  lemma {:induction false} AtIndex(spans: seq<Span>, from: nat, k: nat, a: int)
    requires Partition(spans, from) && k < |spans| && spans[k].Contains(a)
    ensures At(spans, a) == Some(spans[k].attributes)
  {
    PartitionOrder(spans, from);
    if k > 0 {
      AtIndex(spans[1..], spans[0].End(), k - 1, a);
    }
  }

  /** Non-empty spans, all in the address space, each behind the ones before it. */
  lemma {:induction false} PartitionIff(spans: seq<Span>, from: nat)
    ensures Partition(spans, from) <==>
            && (forall k :: 0 <= k < |spans| ==>
                  from <= spans[k].address && 0 < spans[k].size && spans[k].address + spans[k].size <= 0x1_0000_0000_0000_0000)
            && (forall j, k :: 0 <= j < k < |spans| ==> spans[j].address + spans[j].size <= spans[k].address)
  {
    if spans != [] {
      var rest, next := spans[1..], spans[0].End();
      PartitionIff(rest, next);
      assert forall k :: 0 <= k < |rest| ==> rest[k] == spans[k + 1];
      assert forall k :: 0 < k < |spans| ==> spans[k] == rest[k - 1];
      if Partition(spans, from) {
        PartitionOrder(spans, from);
      }
    }
  }

  /** What is said about a byte is what the span that holds it says. */
  lemma SaysIff(spans: seq<Span>, a: int, says: Attributes)
    requires Partition(spans, 0)
    ensures At(spans, a) == Some(says) <==>
            exists k :: 0 <= k < |spans| && spans[k].address <= a < spans[k].address + spans[k].size && spans[k].attributes == says
    ensures At(spans, a).None? <==> forall k :: 0 <= k < |spans| ==> !(spans[k].address <= a < spans[k].address + spans[k].size)
  {
    hide At, Partition;
    forall k | 0 <= k < |spans| && spans[k].Contains(a)
      ensures At(spans, a) == Some(spans[k].attributes)
    {
      AtIndex(spans, 0, k, a);
    }
    if forall k :: 0 <= k < |spans| ==> !spans[k].Contains(a) {
      AtOutside(spans, a);
    }
  }

  lemma {:induction false} AtOutside(spans: seq<Span>, a: int)
    requires forall k :: 0 <= k < |spans| ==> !spans[k].Contains(a)
    ensures At(spans, a) == None
  {
    if spans != [] {
      AtOutside(spans[1..], a);
    }
  }

  // ---------------------------------------------------------------------------
  // Lookup.

  /** Binary search for the first span that starts after `address`. */
  method UpperBound(spans: seq<Span>, address: u64) returns (k: nat)
    requires Partition(spans, 0)
    ensures k <= |spans|
    ensures forall i :: 0 <= i < k ==> spans[i].address <= address
    ensures forall i :: k <= i < |spans| ==> address < spans[i].address
  {
    hide Partition;
    PartitionOrder(spans, 0);
    var hi := |spans|;
    k := 0;
    while k < hi
      invariant k <= hi <= |spans|
      invariant forall i :: 0 <= i < k ==> spans[i].address <= address
      invariant forall i :: hi <= i < |spans| ==> address < spans[i].address
      decreases hi - k
    {
      var mid := k + (hi - k) / 2;
      if address < spans[mid].address {
        hi := mid;
      } else {
        k := mid + 1;
      }
    }
  }

  /** The predecessor search finds the span holding the byte exactly when one does. */
  method Find(spans: seq<Span>, address: u64) returns (found: Option<Span>)
    requires Partition(spans, 0)
    ensures found.Some? <==> At(spans, address).Some?
    ensures found.Some? ==> found.value in spans && found.value.Contains(address) &&
                            At(spans, address) == Some(found.value.attributes)
  {
    hide Partition, At;
    PartitionOrder(spans, 0);
    var k := UpperBound(spans, address);
    if k == 0 {
      AtOutside(spans, address);
      return None;
    }
    var candidate := spans[k - 1];
    if candidate.size != 0 && address >= candidate.address && address - candidate.address < candidate.size {
      AtIndex(spans, 0, k - 1, address);
      return Some(candidate);
    }
    AtOutside(spans, address);
    found := None;
  }

  // ---------------------------------------------------------------------------
  // Stretches.

  /** Where the span or the gap that holds the byte stops, within a limit. */
  ghost function StretchEnd(spans: seq<Span>, at: nat, limit: nat): nat {
    if spans == [] then limit
    else if at < spans[0].address then Min(limit, spans[0].address)
    else if at < spans[0].End() then Min(limit, spans[0].End())
    else StretchEnd(spans[1..], at, limit)
  }

  lemma {:induction false} StretchUniform(spans: seq<Span>, from: nat, at: nat, limit: nat)
    requires Partition(spans, from) && at < limit
    ensures at < StretchEnd(spans, at, limit) <= limit
    ensures forall a :: at <= a < StretchEnd(spans, at, limit) ==> At(spans, a) == At(spans, at)
  {
    if spans != [] {
      PartitionOrder(spans, from);
      if at < spans[0].address {
        forall a | at <= a < spans[0].address
          ensures At(spans, a) == None
        {
          AtOutside(spans, a);
        }
      } else if at >= spans[0].End() {
        StretchUniform(spans[1..], spans[0].End(), at, limit);
      }
    }
  }

  /** With the spans before `k` all behind `at`, span `k` alone decides the stretch. */
  lemma {:induction false} StretchFrom(spans: seq<Span>, from: nat, k: nat, at: nat, limit: nat)
    requires Partition(spans, from) && k <= |spans|
    requires forall i :: 0 <= i < k ==> spans[i].End() <= at
    requires k < |spans| ==> at < spans[k].End()
    ensures StretchEnd(spans, at, limit) ==
            if k == |spans| then limit
            else Min(limit, if at < spans[k].address then spans[k].address else spans[k].End())
    decreases k
  {
    if k > 0 {
      assert forall i :: 0 <= i < |spans[1..]| ==> spans[1..][i] == spans[i + 1];
      StretchFrom(spans[1..], spans[0].End(), k - 1, at, limit);
    }
  }

  /** Binary search for the first span that starts at or after `address`. */
  method LowerBound(spans: seq<Span>, address: u64) returns (k: nat)
    requires Partition(spans, 0)
    ensures k <= |spans|
    ensures forall i :: 0 <= i < k ==> spans[i].address < address
    ensures forall i :: k <= i < |spans| ==> address <= spans[i].address
  {
    hide Partition;
    PartitionOrder(spans, 0);
    var hi := |spans|;
    k := 0;
    while k < hi
      invariant k <= hi <= |spans|
      invariant forall i :: 0 <= i < k ==> spans[i].address < address
      invariant forall i :: hi <= i < |spans| ==> address <= spans[i].address
      decreases hi - k
    {
      var mid := k + (hi - k) / 2;
      if spans[mid].address < address {
        k := mid + 1;
      } else {
        hi := mid;
      }
    }
  }

  /** What the map says from `address` on, and for how many of the next `room` bytes. */
  method StretchAt(spans: seq<Span>, address: u64, room: u64) returns (count: u64, says: Option<Attributes>)
    requires Partition(spans, 0) && 0 < room && address + room <= U64_LIMIT
    ensures 0 < count <= room && address + count == StretchEnd(spans, address, address + room)
    ensures says == At(spans, address)
  {
    hide Partition, At, StretchEnd;
    StretchUniform(spans, 0, address, address + room);
    var span := Find(spans, address);
    count := room;
    if span.Some? {
      says := Some(span.value.attributes);
      count := Min(count, span.value.size - (address - span.value.address));
      StretchInSpan(spans, span.value, address, address + room);
    } else {
      says := None;
      var next := LowerBound(spans, address);
      StretchInGap(spans, next, address, address + room);
      if next < |spans| {
        count := Min(count, spans[next].address - address);
      }
    }
  }

  lemma StretchInSpan(spans: seq<Span>, span: Span, at: nat, limit: nat)
    requires Partition(spans, 0) && span in spans && span.Contains(at)
    ensures StretchEnd(spans, at, limit) == Min(limit, span.End())
  {
    hide Partition, StretchEnd;
    var k :| 0 <= k < |spans| && spans[k] == span;
    PartitionOrder(spans, 0);
    StretchFrom(spans, 0, k, at, limit);
  }

  lemma StretchInGap(spans: seq<Span>, next: nat, at: nat, limit: nat)
    requires Partition(spans, 0) && At(spans, at) == None && next <= |spans|
    requires forall i :: 0 <= i < next ==> spans[i].address < at
    requires forall i :: next <= i < |spans| ==> at <= spans[i].address
    ensures next < |spans| ==> at < spans[next].address
    ensures StretchEnd(spans, at, limit) == if next == |spans| then limit else Min(limit, spans[next].address)
  {
    hide Partition, StretchEnd, At;
    PartitionOrder(spans, 0);
    forall i | 0 <= i < next
      ensures spans[i].End() <= at
    {
      if at < spans[i].End() {
        AtIndex(spans, 0, i, at);
      }
    }
    if next < |spans| && at == spans[next].address {
      AtIndex(spans, 0, next, at);
    }
    StretchFrom(spans, 0, next, at, limit);
  }

  // ---------------------------------------------------------------------------
  // Canonical form.

  predicate Joinable(before: Span, after: Span) {
    before.address <= U64_MAX - before.size && before.End() == after.address && before.attributes == after.attributes
  }

  /** No two neighbours could be one span. */
  ghost predicate Canonical(spans: seq<Span>) {
    forall k :: 0 < k < |spans| ==> !Joinable(spans[k - 1], spans[k])
  }

  lemma FirstSpanReaches(a: seq<Span>, b: seq<Span>, from: nat)
    requires Partition(a, from) && Partition(b, from) && Canonical(a) && a != [] && b != []
    requires forall x :: At(a, x) == At(b, x)
    ensures a[0].address <= b[0].address
    ensures a[0].address == b[0].address ==> a[0].attributes == b[0].attributes && b[0].size <= a[0].size
  {
    hide At;
    PartitionOrder(a, from);
    PartitionOrder(b, from);
    AtIndex(a, from, 0, a[0].address);
    AtIndex(b, from, 0, b[0].address);
    if b[0].address < a[0].address {
      AtOutside(a, b[0].address);
      assert false;
    }
    if a[0].address == b[0].address && a[0].size < b[0].size {
      var x := a[0].End();
      AtIndex(b, from, 0, x);
      if |a| > 1 && a[1].address == x {
        AtIndex(a, from, 1, x);
      } else {
        AtOutside(a, x);
      }
      assert false;
    }
  }

  lemma TailsAgree(a: seq<Span>, b: seq<Span>, from: nat)
    requires Partition(a, from) && Partition(b, from) && a != [] && b != [] && a[0] == b[0]
    requires forall x :: At(a, x) == At(b, x)
    ensures forall x :: At(a[1..], x) == At(b[1..], x)
  {
    PartitionOrder(a[1..], a[0].End());
    PartitionOrder(b[1..], b[0].End());
    forall x
      ensures At(a[1..], x) == At(b[1..], x)
    {
      assert At(a, x) == At(b, x);
    }
  }

  /** A canonical partition is determined by what it says about each byte. */
  lemma {:induction false} CanonicalUnique(a: seq<Span>, b: seq<Span>, from: nat)
    requires Partition(a, from) && Partition(b, from) && Canonical(a) && Canonical(b)
    requires forall x :: At(a, x) == At(b, x)
    ensures a == b
  {
    if a == [] || b == [] {
      if a != [] { AtIndex(a, from, 0, a[0].address); }
      if b != [] { AtIndex(b, from, 0, b[0].address); }
    } else {
      FirstSpanReaches(a, b, from);
      FirstSpanReaches(b, a, from);
      TailsAgree(a, b, from);
      assert forall k :: 0 < k < |a| ==> a[1..][k - 1] == a[k];
      assert forall k :: 0 < k < |b| ==> b[1..][k - 1] == b[k];
      CanonicalUnique(a[1..], b[1..], a[0].End());
      assert a == [a[0]] + a[1..] && b == [b[0]] + b[1..];
    }
  }

  /** Neighbours with equal attributes become one span; what is said about each byte stays. */
  method Coalesce(spans: seq<Span>) returns (merged: seq<Span>)
    requires Partition(spans, 0) && Total(spans) < U64_LIMIT
    ensures Partition(merged, 0) && Canonical(merged)
    ensures forall a :: At(merged, a) == At(spans, a)
    ensures Total(merged) == Total(spans)
  {
    hide Partition, At, Total;
    merged := [];
    PartitionEmpty();
    for i := 0 to |spans|
      invariant Partition(merged, 0) && Canonical(merged) && EndOf(merged, 0) == EndOf(spans[..i], 0)
      invariant forall a :: At(merged, a) == At(spans[..i], a)
      invariant Total(merged) == Total(spans[..i])
    {
      var span := spans[i];
      PrefixStep(spans, i);
      PrefixTotal(spans, i + 1);
      if merged != [] && Joinable(merged[|merged| - 1], span) {
        ExtendLast(merged, span);
        merged := Extended(merged, span);
      } else {
        AppendSpan(merged, span);
        merged := merged + [span];
      }
    }
    assert spans[..|spans|] == spans;
  }

  lemma PartitionEmpty()
    ensures Partition([], 0) && Total([]) == 0 && forall a :: At([], a) == None
  {
  }

  lemma AppendSpan(spans: seq<Span>, span: Span)
    ensures Partition(spans + [span], 0) <==>
            Partition(spans, 0) && EndOf(spans, 0) <= span.address && 0 < span.size && span.End() <= U64_LIMIT
    ensures forall a :: At(spans + [span], a) ==
                        if At(spans, a).Some? then At(spans, a) else if span.Contains(a) then Some(span.attributes) else None
    ensures Total(spans + [span]) == Total(spans) + span.size
  {
    PartitionAppend(spans, [span], 0);
    TotalAppend(spans, [span]);
    forall a
      ensures At(spans + [span], a) ==
              if At(spans, a).Some? then At(spans, a) else if span.Contains(a) then Some(span.attributes) else None
    {
      AtAppend(spans, [span], a);
    }
  }

  /** The next span of a partition extends what its prefix says. */
  lemma PrefixStep(spans: seq<Span>, i: nat)
    requires Partition(spans, 0) && i < |spans|
    ensures spans[..i + 1] == spans[..i] + [spans[i]] && Partition(spans[..i + 1], 0) && Partition(spans[..i], 0)
    ensures EndOf(spans[..i], 0) <= spans[i].address && 0 < spans[i].size && spans[i].End() <= U64_LIMIT
    ensures forall a :: At(spans[..i + 1], a) ==
                        if At(spans[..i], a).Some? then At(spans[..i], a)
                        else if spans[i].Contains(a) then Some(spans[i].attributes) else None
    ensures Total(spans[..i + 1]) == Total(spans[..i]) + spans[i].size
  {
    hide Partition, At, Total;
    assert spans == spans[..i + 1] + spans[i + 1..] && spans[..i + 1] == spans[..i] + [spans[i]];
    PartitionAppend(spans[..i + 1], spans[i + 1..], 0);
    AppendSpan(spans[..i], spans[i]);
  }

  lemma PrefixTotal(spans: seq<Span>, i: nat)
    requires i <= |spans|
    ensures Total(spans[..i]) <= Total(spans)
  {
    TotalAppend(spans[..i], spans[i..]);
    assert spans[..i] + spans[i..] == spans;
  }

  lemma ExtendLast(spans: seq<Span>, span: Span)
    requires Partition(spans, 0) && spans != [] && Canonical(spans) && 0 < span.size && span.End() <= U64_LIMIT
    requires Joinable(spans[|spans| - 1], span) && Total(spans) + span.size < U64_LIMIT
    ensures spans[|spans| - 1].size + span.size < U64_LIMIT
    ensures var extended := Extended(spans, span);
            && Partition(extended, 0) && Canonical(extended) && EndOf(extended, 0) == span.End()
            && Total(extended) == Total(spans) + span.size
            && forall a :: At(extended, a) ==
                           if At(spans, a).Some? then At(spans, a) else if span.Contains(a) then Some(span.attributes) else None
  {
    hide Partition, At, Total;
    var n := |spans| - 1;
    PrefixStep(spans, n);
    assert spans[..n + 1] == spans;
    AppendSpan(spans[..n], Extended(spans, span)[n]);
  }

  /** The last span grown over the one that follows it. */
  function Extended(spans: seq<Span>, span: Span): (r: seq<Span>)
    requires spans != [] && spans[|spans| - 1].size + span.size < U64_LIMIT
    ensures |r| == |spans| && r == spans[..|spans| - 1] + [r[|spans| - 1]]
  {
    var last := spans[|spans| - 1];
    spans[..|spans| - 1] + [last.(size := last.size + span.size)]
  }
}
