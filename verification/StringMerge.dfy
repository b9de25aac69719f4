/** The capped two-encoding scan of a buffer, and why stopping each encoding early loses nothing. */
module StringMerge {
  import opened Machine
  import opened AddressSpan
  import opened StringRuns
  import opened StringScan
  import Utf8

  // ---------------------------------------------------------------------------
  // Sorting.

  /** By offset; a narrow hit comes first at an identical one. */
  predicate Less(a: Hit, b: Hit) {
    a.offset < b.offset || (a.offset == b.offset && !a.wide && b.wide)
  }

  function Insert(h: Hit, sorted: seq<Hit>): seq<Hit> {
    if sorted == [] || !Less(sorted[0], h) then [h] + sorted else [sorted[0]] + Insert(h, sorted[1..])
  }

  function Sorted(hits: seq<Hit>): seq<Hit> {
    if hits == [] then [] else Insert(hits[0], Sorted(hits[1..]))
  }

  /** Of neighbours at one offset, the first stays. */
  function Unique(hits: seq<Hit>): seq<Hit>
    decreases |hits|
  {
    if |hits| < 2 then hits
    else if hits[0].offset == hits[1].offset then Unique([hits[0]] + hits[2..])
    else [hits[0]] + Unique(hits[1..])
  }

  ghost predicate InOrder(hits: seq<Hit>) {
    forall j, k :: 0 <= j < k < |hits| ==> !Less(hits[k], hits[j])
  }

  ghost predicate Ascending(hits: seq<Hit>) {
    forall j, k :: 0 <= j < k < |hits| ==> hits[j].offset < hits[k].offset
  }

  lemma {:induction false} InsertSorts(h: Hit, sorted: seq<Hit>)
    requires InOrder(sorted)
    ensures InOrder(Insert(h, sorted))
    ensures forall x :: x in Insert(h, sorted) <==> x == h || x in sorted
  {
    if sorted != [] && Less(sorted[0], h) {
      var rest := Insert(h, sorted[1..]);
      InsertSorts(h, sorted[1..]);
      assert forall x :: x in sorted <==> x == sorted[0] || x in sorted[1..];
      assert forall x :: x in sorted[1..] ==> !Less(x, sorted[0]);
      assert forall k :: 0 <= k < |rest| ==> rest[k] in rest;
    }
  }

  /** Sorting any list puts it in order and changes no member. */
  lemma {:induction false} SortedSorts(hits: seq<Hit>)
    ensures InOrder(Sorted(hits))
    ensures forall x :: x in Sorted(hits) <==> x in hits
  {
    hide InOrder, Insert;
    if hits == [] {
      NothingInOrder();
    } else {
      SortedSorts(hits[1..]);
      InsertSorts(hits[0], Sorted(hits[1..]));
      assert forall x :: x in hits <==> x == hits[0] || x in hits[1..];
    }
  }

  lemma NothingInOrder()
    ensures InOrder([])
  {
  }

  ghost predicate HasOffset(hits: seq<Hit>, offset: nat) {
    exists k :: 0 <= k < |hits| && hits[k].offset == offset
  }

  /** The hit is one of the list, and none of the list at its offset precedes it. */
  ghost predicate Best(hits: seq<Hit>, h: Hit) {
    h in hits && forall v :: v in hits && v.offset == h.offset ==> !Less(v, h)
  }

  lemma FirstIsBest(hits: seq<Hit>)
    requires InOrder(hits) && hits != []
    ensures Best(hits, hits[0]) && InOrder(hits[1..])
    ensures forall v :: v in hits ==> hits[0].offset <= v.offset
    ensures |hits| > 1 ==> InOrder([hits[0]] + hits[2..])
  {
    assert forall v :: v in hits ==> !Less(v, hits[0]);
  }

  /** Dropping a hit that repeats the first one's offset drops no offset and no best hit but its own. */
  lemma DropRepeated(hits: seq<Hit>, h: Hit, offset: nat)
    requires InOrder(hits) && |hits| > 1 && hits[0].offset == hits[1].offset
    ensures var fewer := [hits[0]] + hits[2..];
            && (HasOffset(fewer, offset) <==> HasOffset(hits, offset))
            && (Best(fewer, h) ==> Best(hits, h))
  {
    var fewer := [hits[0]] + hits[2..];
    assert forall k :: 1 <= k < |fewer| ==> fewer[k] == hits[k + 1];
    assert forall k :: 2 <= k < |hits| ==> hits[k] == fewer[k - 1];
    assert fewer[0] == hits[0];
    assert forall x :: x in hits <==> x in fewer || x == hits[1];
    if HasOffset(hits, offset) {
      var k :| 0 <= k < |hits| && hits[k].offset == offset;
      assert fewer[if k < 2 then 0 else k - 1].offset == offset;
    }
  }

  /** Of any list in order one hit per offset stays, the best one, by ascending offset. */
  lemma {:induction false} UniqueKeepsBest(hits: seq<Hit>)
    requires InOrder(hits)
    ensures Ascending(Unique(hits))
    ensures forall h :: h in Unique(hits) ==> Best(hits, h)
    ensures forall offset :: HasOffset(Unique(hits), offset) <==> HasOffset(hits, offset)
    decreases |hits|
  {
    hide Best, HasOffset, InOrder;
    if hits != [] {
      FirstIsBest(hits);
    }
    if |hits| >= 2 {
      if hits[0].offset == hits[1].offset {
        var fewer := [hits[0]] + hits[2..];
        UniqueKeepsBest(fewer);
        forall h | h in Unique(hits)
          ensures Best(hits, h)
        {
          DropRepeated(hits, h, 0);
        }
        forall offset
          ensures HasOffset(Unique(hits), offset) <==> HasOffset(hits, offset)
        {
          DropRepeated(hits, hits[0], offset);
        }
      } else {
        UniqueKeepsBest(hits[1..]);
        UniqueStep(hits);
      }
    }
  }

  lemma BestBehindFirst(hits: seq<Hit>, h: Hit)
    requires InOrder(hits) && |hits| > 1 && hits[0].offset != hits[1].offset && Best(hits[1..], h)
    ensures Best(hits, h) && hits[0].offset < h.offset
  {
    FirstIsBest(hits);
    FirstIsBest(hits[1..]);
    assert forall v :: v in hits <==> v == hits[0] || v in hits[1..];
  }

  lemma UniqueStep(hits: seq<Hit>)
    requires InOrder(hits) && |hits| > 1 && hits[0].offset != hits[1].offset
    requires Ascending(Unique(hits[1..])) && forall h :: h in Unique(hits[1..]) ==> Best(hits[1..], h)
    requires forall offset :: HasOffset(Unique(hits[1..]), offset) <==> HasOffset(hits[1..], offset)
    ensures Ascending(Unique(hits)) && forall h :: h in Unique(hits) ==> Best(hits, h)
    ensures forall offset :: HasOffset(Unique(hits), offset) <==> HasOffset(hits, offset)
  {
    hide Unique, Best, HasOffset, InOrder;
    UniqueUnfolds(hits);
    var rest, kept := hits[1..], Unique(hits[1..]);
    assert hits == [hits[0]] + rest;
    FirstIsBest(hits);
    forall h | h in kept
      ensures Best(hits, h) && hits[0].offset < h.offset
    {
      BestBehindFirst(hits, h);
    }
    assert forall k :: 0 <= k < |kept| ==> kept[k] in kept;
    forall offset
      ensures HasOffset([hits[0]] + kept, offset) <==> HasOffset(hits, offset)
    {
      OffsetOfCons(hits[0], kept, offset);
      OffsetOfCons(hits[0], rest, offset);
    }
  }

  lemma UniqueUnfolds(hits: seq<Hit>)
    requires |hits| > 1 && hits[0].offset != hits[1].offset
    ensures Unique(hits) == [hits[0]] + Unique(hits[1..])
  {
  }

  lemma OffsetOfCons(h: Hit, rest: seq<Hit>, offset: nat)
    ensures HasOffset([h] + rest, offset) <==> h.offset == offset || HasOffset(rest, offset)
  {
    var all := [h] + rest;
    assert all[0] == h;
    if k :| 0 <= k < |rest| && rest[k].offset == offset {
      assert all[k + 1] == rest[k];
    }
    if k :| 0 <= k < |all| && all[k].offset == offset {
      assert k > 0 ==> all[k] == rest[k - 1];
    }
  }

  ghost function Offsets(hits: seq<Hit>): set<nat> {
    set h | h in hits :: h.offset
  }

  lemma {:induction false} AscendingCount(hits: seq<Hit>)
    requires Ascending(hits)
    ensures |Offsets(hits)| == |hits|
  {
    if hits == [] {
      assert Offsets(hits) == {};
    } else {
      var rest := hits[1..];
      AscendingCount(rest);
      assert hits == [hits[0]] + rest;
      assert Offsets(hits) == {hits[0].offset} + Offsets(rest);
      assert hits[0].offset !in Offsets(rest);
    }
  }

  lemma SameOffsets(a: seq<Hit>, b: seq<Hit>)
    requires forall offset :: HasOffset(a, offset) <==> HasOffset(b, offset)
    ensures Offsets(a) == Offsets(b)
  {
    forall o
      ensures o in Offsets(a) <==> o in Offsets(b)
    {
      assert o in Offsets(a) <==> HasOffset(a, o);
      assert o in Offsets(b) <==> HasOffset(b, o);
    }
  }

  /** Sorting and deduplicating any list: what stays, and how much. */
  lemma SortedUnique(values: seq<Hit>)
    ensures var all := Unique(Sorted(values));
            && Ascending(all) && |all| == |Offsets(values)|
            && (forall h :: h in all ==> Best(values, h))
            && forall v :: v in values ==> HasOffset(all, v.offset)
  {
    hide Unique, Sorted, Ascending, InOrder;
    var sorted := Sorted(values);
    SortedSorts(values);
    UniqueKeepsBest(sorted);
    AscendingCount(Unique(sorted));
    SameOffsets(Unique(sorted), sorted);
    assert Offsets(sorted) == Offsets(values);
    forall v | v in values
      ensures HasOffset(sorted, v.offset)
    {
      var k :| 0 <= k < |sorted| && sorted[k] == v;
    }
  }

  /** The first `cap` hits of what stays; a value that is not represented lies behind all of them. */
  lemma CappedAccounts(values: seq<Hit>, all: seq<Hit>, kept: seq<Hit>, cap: nat)
    requires Ascending(all) && kept == Take(all, cap)
    requires forall v :: v in values ==> HasOffset(all, v.offset)
    ensures Ascending(kept) && forall h :: h in kept ==> h in all
    ensures forall v :: v in values ==>
              HasOffset(kept, v.offset) || (|kept| == cap && forall h :: h in kept ==> h.offset < v.offset)
  {
    forall v | v in values
      ensures HasOffset(kept, v.offset) || (|kept| == cap && forall h :: h in kept ==> h.offset < v.offset)
    {
      var k :| 0 <= k < |all| && all[k].offset == v.offset;
      if k < |kept| {
        assert kept[k].offset == v.offset;
      }
    }
  }

  /**
    Sorted, one hit per offset, at most `cap` of them: each the first in order at its offset, and truncated
    exactly when it was already or there are more offsets than fit.
   */
  method SortDedupAndCap(values: seq<Hit>, cap: nat, truncated: bool) returns (kept: seq<Hit>, nowTruncated: bool)
    ensures Ascending(kept) && |kept| <= cap
    ensures forall h :: h in kept ==> Best(values, h)
    ensures forall v :: v in values ==>
              HasOffset(kept, v.offset) || (|kept| == cap && forall h :: h in kept ==> h.offset < v.offset)
    ensures nowTruncated == (truncated || cap < |Offsets(values)|)
    ensures kept == Take(Unique(Sorted(values)), cap)
    ensures nowTruncated == (truncated || cap < |Unique(Sorted(values))|)
  {
    hide Unique, Sorted, Ascending, Best, HasOffset, Offsets;
    kept, nowTruncated := Unique(Sorted(values)), truncated;
    ghost var all := kept;
    SortedUnique(values);
    if |kept| > cap {
      kept := kept[..cap];
      nowTruncated := true;
    }
    CappedAccounts(values, all, kept, cap);
  }

  // ---------------------------------------------------------------------------
  // The union of two ascending lists.

  ghost predicate Apart(a: seq<Hit>, b: seq<Hit>) {
    forall j, k :: 0 <= j < |a| && 0 <= k < |b| ==> a[j].offset != b[k].offset
  }

  /** Every hit of both lists, by offset. */
  ghost function Merge(a: seq<Hit>, b: seq<Hit>): (m: seq<Hit>)
    ensures |m| == |a| + |b|
  {
    if a == [] then b
    else if b == [] then a
    else if a[0].offset < b[0].offset then [a[0]] + Merge(a[1..], b)
    else [b[0]] + Merge(a, b[1..])
  }

  lemma {:induction false} MergeMembers(a: seq<Hit>, b: seq<Hit>)
    ensures forall h :: h in Merge(a, b) <==> h in a || h in b
  {
    if a != [] && b != [] {
      if a[0].offset < b[0].offset {
        MergeMembers(a[1..], b);
      } else {
        MergeMembers(a, b[1..]);
      }
      assert forall h :: h in a <==> h == a[0] || h in a[1..];
      assert forall h :: h in b <==> h == b[0] || h in b[1..];
    }
  }

  lemma {:induction false} MergeAscending(a: seq<Hit>, b: seq<Hit>)
    requires Ascending(a) && Ascending(b) && Apart(a, b)
    ensures Ascending(Merge(a, b))
  {
    if a != [] && b != [] {
      if a[0].offset < b[0].offset {
        MergeAscending(a[1..], b);
        MergeMembers(a[1..], b);
        AscendingCons(a[0], Merge(a[1..], b));
      } else {
        MergeAscending(a, b[1..]);
        MergeMembers(a, b[1..]);
        AscendingCons(b[0], Merge(a, b[1..]));
      }
    }
  }

  lemma AscendingCons(h: Hit, rest: seq<Hit>)
    requires Ascending(rest) && forall r :: r in rest ==> h.offset < r.offset
    ensures Ascending([h] + rest)
  {
    assert forall k :: 0 <= k < |rest| ==> rest[k] in rest;
  }

  lemma TakeFirst(a: seq<Hit>, n: nat)
    requires 0 < n && a != []
    ensures Take(a, n) == [a[0]] + Take(a[1..], n - 1)
  {
  }

  lemma TakeShort(a: seq<Hit>, n: nat)
    ensures n == 0 ==> Take(a, n) == []
    ensures |a| <= n ==> Take(a, n) == a
  {
  }

  lemma TakeTake(a: seq<Hit>, p: nat, n: nat)
    requires n <= p
    ensures Take(Take(a, p), n) == Take(a, n)
    ensures Take(a, p) == [] <==> a == [] || p == 0
  {
  }

  lemma MergeStep(a: seq<Hit>, b: seq<Hit>)
    ensures a == [] ==> Merge(a, b) == b
    ensures b == [] ==> Merge(a, b) == a
    ensures a != [] && b != [] ==>
      Merge(a, b) == if a[0].offset < b[0].offset then [a[0]] + Merge(a[1..], b) else [b[0]] + Merge(a, b[1..])
  {
  }

  /** The first `n` hits of a union need only the first `n` hits of either side. */
  lemma {:induction false} TakeMerge(n: nat, a: seq<Hit>, b: seq<Hit>, p: nat, q: nat)
    requires n <= p && n <= q
    ensures Take(Merge(a, b), n) == Take(Merge(Take(a, p), Take(b, q)), n)
    decreases |a| + |b|
  {
    hide Merge, Take;
    TakeShort(Merge(a, b), n);
    TakeShort(Merge(Take(a, p), Take(b, q)), n);
    TakeTake(a, p, n);
    TakeTake(b, q, n);
    var x, y := Take(a, p), Take(b, q);
    MergeStep(a, b);
    MergeStep(x, y);
    if n > 0 && a != [] && b != [] {
      TakeFirst(a, p);
      TakeFirst(b, q);
      TakeFirst(Merge(a, b), n);
      TakeFirst(Merge(x, y), n);
      if a[0].offset < b[0].offset {
        TakeMerge(n - 1, a[1..], b, p - 1, q);
        assert [a[0]] + Take(a[1..], p - 1) == x && x[1..] == Take(a[1..], p - 1);
      } else {
        TakeMerge(n - 1, a, b[1..], p, q - 1);
        assert [b[0]] + Take(b[1..], q - 1) == y && y[1..] == Take(b[1..], q - 1);
      }
    }
  }

  /** One hit more than fits is enough to see on either side that the union overflows. */
  lemma OverflowSeen(n: nat, a: seq<Hit>, b: seq<Hit>, p: nat, q: nat)
    requires n < p || |a| <= p
    requires n < q || |b| <= q
    ensures n < |Merge(a, b)| <==> n < |Merge(Take(a, p), Take(b, q))|
  {
  }

  /** Inserting a hit that precedes the rest of its own list is merging it. */
  lemma {:induction false} InsertIsMerge(h: Hit, a: seq<Hit>, b: seq<Hit>)
    requires Ascending([h] + a) && Ascending(b) && Apart([h] + a, b)
    ensures Insert(h, Merge(a, b)) == Merge([h] + a, b)
    decreases |b|
  {
    assert ([h] + a)[1..] == a && ([h] + a)[0] == h;
    if b == [] {
      assert a != [] ==> ([h] + a)[1] == a[0];
    } else {
      assert ([h] + a)[0].offset != b[0].offset;
      MergeMembers(a, b);
      if h.offset < b[0].offset {
        assert a != [] ==> ([h] + a)[1] == a[0];
      } else {
        assert a != [] ==> ([h] + a)[1] == a[0];
        assert Apart([h] + a, b[1..]);
        InsertIsMerge(h, a, b[1..]);
        assert Merge(a, b) == [b[0]] + Merge(a, b[1..]);
        assert Merge([h] + a, b) == [b[0]] + Merge([h] + a, b[1..]);
      }
    }
  }

  lemma {:induction false} SortedAscending(a: seq<Hit>)
    requires Ascending(a)
    ensures Sorted(a) == a
  {
    if a != [] {
      SortedAscending(a[1..]);
    }
  }

  /** Sorting the concatenation of two ascending lists is merging them. */
  lemma {:induction false} SortedIsMerge(a: seq<Hit>, b: seq<Hit>)
    requires Ascending(a) && Ascending(b) && Apart(a, b)
    ensures Sorted(a + b) == Merge(a, b)
    decreases |a|
  {
    if a == [] {
      assert a + b == b;
      SortedAscending(b);
    } else {
      SortedIsMerge(a[1..], b);
      assert (a + b)[1..] == a[1..] + b && [a[0]] + a[1..] == a;
      InsertIsMerge(a[0], a[1..], b);
    }
  }

  lemma {:induction false} UniqueAscending(a: seq<Hit>)
    requires Ascending(a)
    ensures Unique(a) == a
  {
    if |a| >= 2 {
      UniqueAscending(a[1..]);
    }
  }

  // ---------------------------------------------------------------------------
  // The two encodings.

  lemma NarrowAscending(d: Bytes)
    ensures Ascending(AllNarrow(d))
    ensures forall h :: h in AllNarrow(d) ==> h.offset <= |d| && StartsRun(NarrowUnits(d), h.offset)
  {
    var u := NarrowUnits(d);
    RunsExact(u, 0);
    assert forall k :: 0 <= k < |Runs(u, 0)| ==> Runs(u, 0)[k] in Runs(u, 0) && AllNarrow(d)[k].offset == Runs(u, 0)[k].start;
  }

  lemma WideAscending(d: Bytes)
    ensures Ascending(AllWide(d))
    ensures forall h :: h in AllWide(d) ==> h.offset <= |d| && StartsRun(WideUnits(d), h.offset)
  {
    var u := WideUnits(d);
    RunsExact(u, 0);
    assert forall k :: 0 <= k < |Runs(u, 0)| ==> Runs(u, 0)[k] in Runs(u, 0) && AllWide(d)[k].offset == Runs(u, 0)[k].start;
  }

  /** A wide unit's zero byte ends any narrow run after one unit. */
  lemma NoCommonStart(d: Bytes, i: nat)
    requires i <= |d|
    ensures !(StartsRun(NarrowUnits(d), i) && StartsRun(WideUnits(d), i))
  {
    var u, w := NarrowUnits(d), WideUnits(d);
    if i < |d| && w[i] > 0 && u[i] > 0 {
      assert Utf8.PrintableAscii(d[i]) && d[i..][0] == d[i];
      assert u[i] == 1 && d[i + 1..][0] == 0;
      assert u[i + 1] == 0;
      assert RunUnits(u, i) == 1 + RunUnits(u, i + 1);
    }
  }

  /** No narrow and wide string start at the same offset, so the sort never has to choose. */
  lemma EncodingsApart(d: Bytes)
    ensures Apart(AllNarrow(d), AllWide(d))
  {
    NarrowAscending(d);
    WideAscending(d);
    forall j, k | 0 <= j < |AllNarrow(d)| && 0 <= k < |AllWide(d)|
      ensures AllNarrow(d)[j].offset != AllWide(d)[k].offset
    {
      assert AllNarrow(d)[j] in AllNarrow(d) && AllWide(d)[k] in AllWide(d);
      NoCommonStart(d, AllNarrow(d)[j].offset);
    }
  }

  lemma TakeAscending(a: seq<Hit>, n: nat, b: seq<Hit>, m: nat)
    requires Ascending(a) && Ascending(b) && Apart(a, b)
    ensures Ascending(Take(a, n)) && Ascending(Take(b, m)) && Apart(Take(a, n), Take(b, m))
  {
  }

  /** Every string of the buffer, by offset. */
  ghost function AllStrings(d: Bytes): seq<Hit> {
    Merge(AllNarrow(d), AllWide(d))
  }

  /** The units from `i` on cannot be extended on either side, and are at least four. */
  ghost predicate MaximalRun(u: Units, i: nat, bounds: seq<nat>) {
    Boundaries(u, i, bounds) && 4 < |bounds| && forall j :: 0 <= j < i && j < |u| && 0 < u[j] ==> j + u[j] != i
  }

  /**
    A narrow string: a maximal run of UTF-8 units. Its text is the bytes of as many whole units as fit in 512
    bytes, and it is truncated when there are more.
   */
  ghost predicate NarrowString(d: Bytes, h: Hit, bounds: seq<nat>, stored: nat) {
    && MaximalRun(NarrowUnits(d), h.offset, bounds) && !h.wide && stored < |bounds|
    && h.offset <= bounds[stored] <= |d| && h.text == d[h.offset..bounds[stored]] && |h.text| <= 512
    && (stored + 1 < |bounds| ==> 512 < bounds[stored + 1] - h.offset)
    && (h.textTruncated <==> stored + 1 < |bounds|)
  }

  /** A wide string: a maximal run of ASCII code units. Its text is the low bytes of the first 512. */
  ghost predicate WideString(d: Bytes, h: Hit, bounds: seq<nat>) {
    && h.offset <= |d| && MaximalRun(WideUnits(d), h.offset, bounds) && h.wide
    && |h.text| == Min(|bounds| - 1, 512)
    && (forall k :: 0 <= k < |h.text| ==> h.offset + 2 * k < |d| && h.text[k] == d[h.offset + 2 * k])
    && (h.textTruncated <==> 512 < |bounds| - 1)
  }

  ghost predicate IsString(d: Bytes, h: Hit) {
    (exists bounds, stored :: NarrowString(d, h, bounds, stored)) || exists bounds :: WideString(d, h, bounds)
  }

  lemma MaximalIsStart(u: Units, i: nat)
    requires SelfSynchronising(u) && i <= |u|
    ensures StartsRun(u, i) <==> MaximalRun(u, i, BoundariesOf(u, i))
    ensures forall bounds :: MaximalRun(u, i, bounds) ==> bounds == BoundariesOf(u, i)
  {
    hide Boundaries, BoundariesOf, RunEnd, RunUnits, SelfSynchronising;
    RunIs(u, i, BoundariesOf(u, i));
    forall bounds | MaximalRun(u, i, bounds)
      ensures bounds == BoundariesOf(u, i)
    {
      RunIs(u, i, bounds);
    }
  }

  /** The stored prefix ends at the last boundary that keeps it within 512 bytes. */
  lemma {:induction false} StoredAt(u: Units, start: nat, p: nat) returns (stored: nat)
    requires SelfSynchronising(u) && start <= p <= |u| && p - start <= 512
    ensures var bounds := BoundariesOf(u, p);
            && stored < |bounds| && bounds[stored] == StoreEnd(u, start, p) && bounds[stored] - start <= 512
            && (stored + 1 < |bounds| ==> 512 < bounds[stored + 1] - start)
    decreases |u| - p
  {
    hide StoreEnd, BoundariesOf, SelfSynchronising;
    BoundariesUnfold(u, p);
    if p == |u| {
      MeasureEnd(u, start);
      stored := 0;
    } else {
      MeasureStep(u, start, p);
      if u[p] == 0 {
        stored := 0;
      } else {
        BoundariesUnfold(u, p + u[p]);
        if p + u[p] - start <= 512 {
          var rest := StoredAt(u, start, p + u[p]);
          stored := rest + 1;
        } else {
          stored := 0;
        }
      }
    }
  }

  lemma BoundariesUnfold(u: Units, p: nat)
    requires SelfSynchronising(u) && p <= |u|
    ensures BoundariesOf(u, p) != [] && BoundariesOf(u, p)[0] == p
    ensures p == |u| || u[p] == 0 ==> BoundariesOf(u, p) == [p]
    ensures p < |u| && 0 < u[p] ==> p + u[p] <= |u| && BoundariesOf(u, p) == [p] + BoundariesOf(u, p + u[p])
  {
  }

  /** The stored index is the only one that fits. */
  lemma {:induction false} OneStored(u: Units, i: nat, bounds: seq<nat>, m: nat, n: nat)
    requires SelfSynchronising(u) && Boundaries(u, i, bounds) && m <= n < |bounds|
    requires bounds[n] - i <= 512 && (m + 1 < |bounds| ==> 512 < bounds[m + 1] - i)
    ensures m == n
    decreases n - m
  {
    hide SelfSynchronising;
    if m < n {
      BoundsAscend(u, i, bounds, m + 1, n);
      assert false;
    }
  }

  lemma {:induction false} BoundsAscend(u: Units, i: nat, bounds: seq<nat>, m: nat, n: nat)
    requires Boundaries(u, i, bounds) && m <= n < |bounds|
    ensures bounds[m] <= bounds[n]
    decreases n - m
  {
    if m < n {
      BoundsAscend(u, i, bounds, m, n - 1);
      assert bounds[n - 1 + 1] == bounds[n - 1] + u[bounds[n - 1]];
    }
  }

  /** The hit of a run is the string there. */
  lemma NarrowHitIs(d: Bytes, i: nat, bounds: seq<nat>) returns (stored: nat)
    requires i <= |d| && bounds == BoundariesOf(NarrowUnits(d), i) && MaximalRun(NarrowUnits(d), i, bounds)
    ensures NarrowString(d, NarrowHit(d, RunAt(NarrowUnits(d), i)), bounds, stored)
    ensures forall h, m: nat :: NarrowString(d, h, bounds, m) && h.offset == i ==> h == NarrowHit(d, RunAt(NarrowUnits(d), i))
  {
    hide RunEnd, RunUnits, StoreEnd, BoundariesOf, SelfSynchronising, NarrowUnits;
    var u := NarrowUnits(d);
    RunIs(u, i, bounds);
    stored := StoredAt(u, i, i);
    StoreEndLongest(u, i, i);
    if stored + 1 < |bounds| {
      BoundsAscend(u, i, bounds, stored + 1, |bounds| - 1);
    }
    forall h, m: nat | NarrowString(d, h, bounds, m) && h.offset == i
      ensures h == NarrowHit(d, RunAt(u, i))
    {
      if m <= stored {
        OneStored(u, i, bounds, m, stored);
      } else {
        OneStored(u, i, bounds, stored, m);
      }
    }
  }

  /** The narrow hits are the narrow strings. */
  lemma NarrowExactly(d: Bytes, h: Hit)
    ensures h in AllNarrow(d) <==> exists bounds, stored :: NarrowString(d, h, bounds, stored)
  {
    hide NarrowHit, StartsRun, Runs, BoundariesOf, MaximalRun, NarrowUnits;
    var u := NarrowUnits(d);
    RunsExact(u, 0);
    NarrowMembers(d, h);
    if h in AllNarrow(d) {
      var i :| 0 <= i <= |d| && StartsRun(u, i) && h == NarrowHit(d, RunAt(u, i));
      MaximalIsStart(u, i);
      var stored := NarrowHitIs(d, i, BoundariesOf(u, i));
    }
    if bounds, stored :| NarrowString(d, h, bounds, stored) {
      MaximalIsStart(u, h.offset);
      var m := NarrowHitIs(d, h.offset, bounds);
    }
  }

  lemma NarrowMembers(d: Bytes, h: Hit)
    ensures h in AllNarrow(d) <==>
            exists i: nat {:trigger NarrowHit(d, RunAt(NarrowUnits(d), i))} ::
              i <= |d| && StartsRun(NarrowUnits(d), i) && h == NarrowHit(d, RunAt(NarrowUnits(d), i))
  {
    hide NarrowHit, StartsRun, Runs, RunEnd, RunUnits, SelfSynchronising, NarrowUnits;
    var u := NarrowUnits(d);
    var runs := Runs(u, 0);
    RunsExact(u, 0);
    if h in AllNarrow(d) {
      var k :| 0 <= k < |AllNarrow(d)| && AllNarrow(d)[k] == h;
      assert runs[k] in runs && h == NarrowHit(d, runs[k]);
    }
    if i: nat :| i <= |d| && StartsRun(u, i) && h == NarrowHit(d, RunAt(u, i)) {
      assert RunAt(u, i) in runs;
      var k :| 0 <= k < |runs| && runs[k] == RunAt(u, i);
      assert AllNarrow(d)[k] == h;
    }
  }

  /** The wide hits are the wide strings. */
  lemma WideExactly(d: Bytes, h: Hit)
    ensures h in AllWide(d) <==> exists bounds :: WideString(d, h, bounds)
  {
    hide StartsRun, Runs, BoundariesOf, MaximalRun, WideUnits, WideHit, RunEnd, RunUnits;
    var u := WideUnits(d);
    WideMembers(d, h);
    if h in AllWide(d) {
      var i: nat :| i <= |d| && StartsRun(u, i) && i + 2 * RunUnits(u, i) <= |d| && h == WideHit(d, RunAt(u, i));
      MaximalIsStart(u, i);
      WideHitIs(d, i, BoundariesOf(u, i));
    }
    if bounds :| WideString(d, h, bounds) {
      MaximalIsStart(u, h.offset);
      WideHitIs(d, h.offset, bounds);
    }
  }

  lemma WideHitIs(d: Bytes, i: nat, bounds: seq<nat>)
    requires i <= |d| && bounds == BoundariesOf(WideUnits(d), i) && MaximalRun(WideUnits(d), i, bounds)
    ensures i + 2 * RunUnits(WideUnits(d), i) <= |d|
    ensures WideString(d, WideHit(d, RunAt(WideUnits(d), i)), bounds)
    ensures forall h :: WideString(d, h, bounds) && h.offset == i ==> h == WideHit(d, RunAt(WideUnits(d), i))
  {
    hide RunEnd, RunUnits, BoundariesOf, SelfSynchronising, WideUnits;
    RunIs(WideUnits(d), i, bounds);
    WideRunLength(d, i);
  }

  lemma WideMembers(d: Bytes, h: Hit)
    ensures h in AllWide(d) <==>
            exists i: nat {:trigger RunAt(WideUnits(d), i)} ::
              i <= |d| && StartsRun(WideUnits(d), i) && i + 2 * RunUnits(WideUnits(d), i) <= |d|
              && h == WideHit(d, RunAt(WideUnits(d), i))
  {
    hide StartsRun, Runs, RunEnd, RunUnits, SelfSynchronising, WideUnits, LowBytes;
    var u := WideUnits(d);
    var runs := Runs(u, 0);
    RunsExact(u, 0);
    WideRunsFit(d, 0);
    if h in AllWide(d) {
      var k :| 0 <= k < |AllWide(d)| && AllWide(d)[k] == h;
      assert runs[k] in runs && h == WideHit(d, runs[k]);
    }
    if i: nat :| i <= |d| && StartsRun(u, i) && i + 2 * RunUnits(u, i) <= |d| && h == WideHit(d, RunAt(u, i)) {
      assert RunAt(u, i) in runs;
      var k :| 0 <= k < |runs| && runs[k] == RunAt(u, i);
      assert AllWide(d)[k] == h;
    }
  }

  /** The union holds exactly the strings of the buffer, by ascending offset. */
  lemma StringsExactly(d: Bytes, h: Hit)
    ensures h in AllStrings(d) <==> IsString(d, h)
    ensures Ascending(AllStrings(d))
  {
    hide AllNarrow, AllWide, Ascending, NarrowString, WideString;
    StringsAscend(d);
    MergeMembers(AllNarrow(d), AllWide(d));
    NarrowExactly(d, h);
    WideExactly(d, h);
  }

  /** With each encoding stopped one hit past the room, the sorted capped list is that of the full union. */
  lemma EarlyStopIsFull(d: Bytes, room: nat, limit: nat)
    requires room < limit || (|d| <= limit && room <= limit)
    ensures var found := Unique(Sorted(Take(AllNarrow(d), limit) + Take(AllWide(d), limit)));
            && Take(found, room) == Take(AllStrings(d), room)
            && (room < |found| <==> room < |AllStrings(d)|)
  {
    var a, b := AllNarrow(d), AllWide(d);
    NarrowAscending(d);
    WideAscending(d);
    EncodingsApart(d);
    TakeAscending(a, limit, b, limit);
    SortedIsMerge(Take(a, limit), Take(b, limit));
    MergeAscending(Take(a, limit), Take(b, limit));
    UniqueAscending(Merge(Take(a, limit), Take(b, limit)));
    TakeMerge(room, a, b, limit, limit);
    OverflowSeen(room, a, b, limit, limit);
  }

  // ---------------------------------------------------------------------------
  // The buffer scan.

  datatype StringResult = StringResult(address: u64, text: Bytes, wide: bool, textTruncated: bool)

  /** The hits whose addresses exist, addressed. */
  ghost function Addressed(base: u64, hits: seq<Hit>): seq<StringResult> {
    if hits == [] then []
    else
      var h := hits[|hits| - 1];
      Addressed(base, hits[..|hits| - 1]) +
      (if base + h.offset < U64_LIMIT then [StringResult(base + h.offset, h.text, h.wide, h.textTruncated)] else [])
  }

  /** The result of a hit whose address exists. */
  ghost predicate ResultOf(base: u64, h: Hit, r: StringResult) {
    && base + h.offset <= 0xFFFF_FFFF_FFFF_FFFF && r.address == base + h.offset
    && r.text == h.text && r.wide == h.wide && r.textTruncated == h.textTruncated
  }

  /** What is appended is the results of the hits, and nothing else, by ascending address. */
  lemma {:induction false} AddressedExactly(base: u64, hits: seq<Hit>)
    requires Ascending(hits)
    ensures forall r :: r in Addressed(base, hits) <==> exists k :: 0 <= k < |hits| && ResultOf(base, hits[k], r)
    ensures forall j, k :: 0 <= j < k < |Addressed(base, hits)| ==> Addressed(base, hits)[j].address < Addressed(base, hits)[k].address
  {
    if hits != [] {
      var n := |hits| - 1;
      var before, last := hits[..n], hits[n];
      AddressedExactly(base, before);
      assert forall k :: 0 <= k < n ==> hits[k] == before[k] && hits[k].offset < last.offset;
      var earlier := Addressed(base, before);
      forall j | 0 <= j < |earlier|
        ensures earlier[j].address < base + last.offset
      {
        assert earlier[j] in earlier;
        var k :| 0 <= k < n && ResultOf(base, before[k], earlier[j]);
        assert hits[k].offset < last.offset;
      }
      AddressedLast(base, hits);
    }
  }

  lemma AddressedLast(base: u64, hits: seq<Hit>)
    requires hits != []
    ensures forall r :: r in Addressed(base, hits) <==>
              r in Addressed(base, hits[..|hits| - 1]) || ResultOf(base, hits[|hits| - 1], r)
  {
  }

  function OnePastCap(cap: u64): u64 {
    if cap == U64_MAX then cap else cap + 1
  }

  ghost predicate AllAddressable(base: u64, hits: seq<Hit>) {
    forall k :: 0 <= k < |hits| ==> base + hits[k].offset < U64_LIMIT
  }

  method ScanStringsBuffer(buffer: Option<Bytes>, base: u64, results: seq<StringResult>, cap: u64)
    returns (out: seq<StringResult>, truncated: bool)
    requires buffer.Some? ==> |buffer.value| <= U64_MAX
    ensures buffer.None? || buffer.value == [] ==> out == results && !truncated
    ensures buffer.Some? && buffer.value != [] && cap < |results| ==> out == results[..cap] && truncated
    ensures buffer.Some? && buffer.value != [] && |results| <= cap ==>
      var room := cap - |results|;
      var first := Take(AllStrings(buffer.value), room);
      && out == results + Addressed(base, first)
      && truncated == (room < |AllStrings(buffer.value)| || !AllAddressable(base, first))
    ensures buffer.Some? && buffer.value != [] && |results| <= cap ==>
      && results <= out && |out| <= cap
      && (forall j, k :: |results| <= j < k < |out| ==> out[j].address < out[k].address)
      && forall r :: r in out[|results|..] <==>
           exists k :: 0 <= k < Min(cap - |results|, |AllStrings(buffer.value)|) && ResultOf(base, AllStrings(buffer.value)[k], r)
  {
    hide Sorted, Unique, AllStrings, AllNarrow, AllWide, Best, HasOffset, Offsets, Ascending, ResultOf, Addressed, AllAddressable;
    if buffer.None? || |buffer.value| == 0 {
      return results, false;
    }
    if |results| > cap {
      return results[..cap], true;
    }
    var d := buffer.value;
    var room: u64 := cap - |results|;
    var perKindLimit := OnePastCap(room);
    var narrow := ScanNarrow(buffer, perKindLimit);
    var wide := ScanWideAscii(buffer, perKindLimit);
    var found;
    found, truncated := SortDedupAndCap(narrow + wide, room, false);
    EarlyStopIsFull(d, room, perKindLimit);
    out := results;
    AddressedNothing(base, found);
    for k := 0 to |found|
      invariant out == results + Addressed(base, found[..k])
      invariant truncated == (room < |AllStrings(d)| || !AllAddressable(base, found[..k]))
    {
      AddressedNext(base, found, k);
      var h := found[k];
      NarrowWideFit(d, room, k);
      var address := CheckedAddressAdd(base, h.offset);
      if address.None? {
        truncated := true;
      } else {
        out := out + [StringResult(address.value, h.text, h.wide, h.textTruncated)];
      }
    }
    assert found[..|found|] == found;
    Appended(d, base, room, results, out);
  }

  lemma AddressedNothing(base: u64, hits: seq<Hit>)
    ensures Addressed(base, hits[..0]) == [] && AllAddressable(base, hits[..0])
  {
  }

  lemma AddressedNext(base: u64, hits: seq<Hit>, k: nat)
    requires k < |hits|
    ensures var h := hits[k];
            Addressed(base, hits[..k + 1]) == Addressed(base, hits[..k]) +
              (if base + h.offset < U64_LIMIT then [StringResult(base + h.offset, h.text, h.wide, h.textTruncated)] else [])
    ensures AllAddressable(base, hits[..k + 1]) <==> AllAddressable(base, hits[..k]) && base + hits[k].offset < U64_LIMIT
  {
    assert hits[..k + 1][..k] == hits[..k];
    assert forall j :: 0 <= j < k ==> hits[..k][j] == hits[..k + 1][j];
    assert hits[k] == hits[..k + 1][k];
  }

  lemma {:induction false} AddressedCount(base: u64, hits: seq<Hit>)
    ensures |Addressed(base, hits)| <= |hits|
  {
    if hits != [] {
      AddressedCount(base, hits[..|hits| - 1]);
    }
  }

  lemma Appended(d: Bytes, base: u64, room: nat, results: seq<StringResult>, out: seq<StringResult>)
    requires out == results + Addressed(base, Take(AllStrings(d), room))
    ensures results <= out && |out| <= |results| + room
    ensures forall j, k :: |results| <= j < k < |out| ==> out[j].address < out[k].address
    ensures forall r :: r in out[|results|..] <==>
              exists k :: 0 <= k < Min(room, |AllStrings(d)|) && ResultOf(base, AllStrings(d)[k], r)
  {
    hide AllStrings, Addressed, ResultOf;
    var all, first := AllStrings(d), Take(AllStrings(d), room);
    StringsAscend(d);
    AddressedExactly(base, first);
    AddressedCount(base, first);
    assert out[|results|..] == Addressed(base, first);
    assert forall k :: 0 <= k < |first| ==> first[k] == all[k];
    assert |first| == Min(room, |all|);
  }

  lemma StringsAscend(d: Bytes)
    ensures Ascending(AllStrings(d))
  {
    hide AllNarrow, AllWide, Ascending, Apart;
    NarrowAscending(d);
    WideAscending(d);
    EncodingsApart(d);
    MergeAscending(AllNarrow(d), AllWide(d));
  }

  lemma NarrowWideFit(d: Bytes, n: nat, k: nat)
    requires k < |Take(AllStrings(d), n)|
    ensures Take(AllStrings(d), n)[k].offset <= |d|
  {
    NarrowAscending(d);
    WideAscending(d);
    MergeMembers(AllNarrow(d), AllWide(d));
    assert AllStrings(d)[k] in AllStrings(d);
  }
}
