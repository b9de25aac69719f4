/** Recognition of Base64 alphabets, standard, URL-safe or permuted, in a data section. */
module Base64Alphabet {
  import opened Machine
  import opened AddressSpan

  const SYMBOLS: nat := 64
  const MAX_PER_SECTION: nat := 16

  type Bytes = seq<u8>

  datatype Alphabet = Standard | UrlSafe

  /** What a window of 64 bytes is: an alphabet, or a reordering of one with so many places changed. */
  datatype Kind = Exact(alphabet: Alphabet) | Mutated(alphabet: Alphabet, differing: nat)

  datatype Match = Match(address: u64, kind: Kind, window: Bytes)

  function Symbol(alphabet: Alphabet, j: nat): u8
    requires j < SYMBOLS
  {
    if j < 26 then 0x41 + j
    else if j < 52 then 0x61 + (j - 26)
    else if j < 62 then 0x30 + (j - 52)
    else if alphabet == Standard then (if j == 62 then 0x2B else 0x2F)
    else (if j == 62 then 0x2D else 0x5F)
  }

  function Symbols(alphabet: Alphabet): (symbols: Bytes)
    ensures |symbols| == SYMBOLS
    ensures forall j :: 0 <= j < SYMBOLS ==> symbols[j] == Symbol(alphabet, j)
  {
    seq(SYMBOLS, j requires 0 <= j < SYMBOLS => Symbol(alphabet, j))
  }

  /** Tables 1 and 2 of RFC 4648: capitals, small letters, digits, and two symbols that differ. */
  lemma SymbolsAre(alphabet: Alphabet, j: nat)
    requires j < 64
    ensures |Symbols(alphabet)| == 64
    ensures j < 26 ==> Symbols(alphabet)[j] == 'A' as int + j
    ensures 26 <= j < 52 ==> Symbols(alphabet)[j] == 'a' as int + (j - 26)
    ensures 52 <= j < 62 ==> Symbols(alphabet)[j] == '0' as int + (j - 52)
    ensures Symbols(Standard)[62] == '+' as int && Symbols(Standard)[63] == '/' as int
    ensures Symbols(UrlSafe)[62] == '-' as int && Symbols(UrlSafe)[63] == '_' as int
  {
  }

  /** The place of a symbol. */
  function Place(alphabet: Alphabet, b: u8): (place: Option<nat>)
    ensures place.Some? ==> place.value < SYMBOLS && Symbol(alphabet, place.value) == b
    ensures place.Some? ==> 0x21 <= b <= 0x7E
  {
    if 0x41 <= b <= 0x5A then Some(b - 0x41)
    else if 0x61 <= b <= 0x7A then Some(b - 0x61 + 26)
    else if 0x30 <= b <= 0x39 then Some(b - 0x30 + 52)
    else if b == (if alphabet == Standard then 0x2B else 0x2D) then Some(62)
    else if b == (if alphabet == Standard then 0x2F else 0x5F) then Some(63)
    else None
  }

  lemma PlaceOfSymbol(alphabet: Alphabet, j: nat)
    requires j < SYMBOLS
    ensures Place(alphabet, Symbol(alphabet, j)) == Some(j)
  {
  }

  // ---------------------------------------------------------------------------
  // Permutations.

  ghost predicate Distinct(s: Bytes) {
    forall i, j :: 0 <= i < j < |s| ==> s[i] != s[j]
  }

  predicate Member(alphabet: Alphabet, b: u8) {
    Place(alphabet, b).Some?
  }

  ghost predicate DrawnFrom(alphabet: Alphabet, w: Bytes) {
    forall j :: 0 <= j < |w| ==> Member(alphabet, w[j])
  }

  ghost predicate Permutes(alphabet: Alphabet, w: Bytes) {
    multiset(w) == multiset(Symbols(alphabet))
  }

  ghost function Elements(s: Bytes): set<u8> {
    set i | 0 <= i < |s| :: s[i]
  }

  lemma {:induction false} ElementsAppend(s: Bytes, b: u8)
    ensures Elements(s + [b]) == Elements(s) + {b}
    ensures b in Elements(s) <==> b in s
  {
    var next := s + [b];
    assert forall i :: 0 <= i < |s| ==> next[i] == s[i];
    assert next[|s|] == b;
  }

  lemma DistinctAppend(s: Bytes, b: u8)
    ensures Distinct(s + [b]) <==> Distinct(s) && b !in s
  {
    var next := s + [b];
    assert forall i :: 0 <= i < |s| ==> next[i] == s[i];
    assert next[|s|] == b;
  }

  lemma NoElements()
    ensures Elements([]) == {} && Distinct([])
  {
  }

  /** There are as many different bytes as places exactly when no byte repeats. */
  lemma {:induction false} DistinctCount(s: Bytes)
    ensures |Elements(s)| <= |s|
    ensures |Elements(s)| == |s| <==> Distinct(s)
  {
    hide Elements, Distinct;
    if s == [] {
      NoElements();
    } else {
      var n := |s| - 1;
      assert s == s[..n] + [s[n]];
      DistinctCount(s[..n]);
      ElementsAppend(s[..n], s[n]);
      DistinctAppend(s[..n], s[n]);
    }
  }

  lemma {:induction false} DistinctMultiset(s: Bytes, b: u8)
    requires Distinct(s)
    ensures multiset(s)[b] == if b in Elements(s) then 1 else 0
  {
    if s != [] {
      var n := |s| - 1;
      DistinctMultiset(s[..n], b);
      assert s == s[..n] + [s[n]];
      ElementsAppend(s[..n], s[n]);
    }
  }

  lemma AlphabetDistinct(alphabet: Alphabet)
    ensures Distinct(Symbols(alphabet))
    ensures forall b :: b in Elements(Symbols(alphabet)) <==> Member(alphabet, b)
  {
    var s := Symbols(alphabet);
    forall i, j | 0 <= i < j < SYMBOLS
      ensures s[i] != s[j]
    {
      PlaceOfSymbol(alphabet, i);
      PlaceOfSymbol(alphabet, j);
    }
    forall b
      ensures b in Elements(s) <==> Member(alphabet, b)
    {
      if b in Elements(s) {
        var j :| 0 <= j < SYMBOLS && s[j] == b;
        PlaceOfSymbol(alphabet, j);
      }
      if Member(alphabet, b) {
        assert s[Place(alphabet, b).value] == b;
      }
    }
  }

  lemma SameSize(a: set<u8>, b: set<u8>)
    requires a <= b && |a| == |b|
    ensures a == b
  {
    assert |b - a| == 0;
  }

  /** Sixty-four different bytes, all symbols of the alphabet, are a reordering of it, and nothing else is. */
  lemma DistinctMembersPermute(alphabet: Alphabet, w: Bytes)
    requires |w| == SYMBOLS
    ensures Distinct(w) && DrawnFrom(alphabet, w) <==> Permutes(alphabet, w)
  {
    hide Distinct, Elements, Member, Symbols;
    var s := Symbols(alphabet);
    AlphabetDistinct(alphabet);
    DistinctCount(s);
    DistinctCount(w);
    if Distinct(w) && DrawnFrom(alphabet, w) {
      ElementsWithin(alphabet, w);
      SameSize(Elements(w), Elements(s));
      forall b
        ensures multiset(w)[b] == multiset(s)[b]
      {
        DistinctMultiset(w, b);
        DistinctMultiset(s, b);
      }
    }
    if Permutes(alphabet, w) {
      SameElements(w, s);
      MembersOf(alphabet, w);
    }
  }

  lemma ElementsWithin(alphabet: Alphabet, w: Bytes)
    requires DrawnFrom(alphabet, w)
    ensures Elements(w) <= Elements(Symbols(alphabet))
  {
    AlphabetDistinct(alphabet);
  }

  lemma SameElements(w: Bytes, s: Bytes)
    requires multiset(w) == multiset(s)
    ensures Elements(w) == Elements(s)
  {
    forall b
      ensures b in Elements(w) <==> b in Elements(s)
    {
      assert b in w <==> b in multiset(w);
      assert b in s <==> b in multiset(s);
      assert b in w ==> b in Elements(w);
      assert b in s ==> b in Elements(s);
    }
  }

  lemma MembersOf(alphabet: Alphabet, w: Bytes)
    requires Elements(w) == Elements(Symbols(alphabet))
    ensures DrawnFrom(alphabet, w)
  {
    AlphabetDistinct(alphabet);
    forall j | 0 <= j < |w|
      ensures Member(alphabet, w[j])
    {
      assert w[j] in Elements(w);
    }
  }

  // ---------------------------------------------------------------------------
  // Distance.

  ghost function Hamming(w: Bytes, s: Bytes): nat
    requires |w| == |s|
  {
    if w == [] then 0
    else Hamming(w[..|w| - 1], s[..|s| - 1]) + (if w[|w| - 1] != s[|s| - 1] then 1 else 0)
  }

  /** The places where two strings of one length differ. */
  ghost function Differing(w: Bytes, s: Bytes): set<int>
    requires |w| == |s|
  {
    set j | 0 <= j < |w| && w[j] != s[j]
  }

  /** The distance counts them. */
  lemma {:induction false} HammingCounts(w: Bytes, s: Bytes)
    requires |w| == |s|
    ensures Hamming(w, s) == |Differing(w, s)|
  {
    if w == [] {
      assert Differing(w, s) == {};
    } else {
      var n := |w| - 1;
      HammingCounts(w[..n], s[..n]);
      assert n !in Differing(w[..n], s[..n]);
      assert Differing(w, s) == Differing(w[..n], s[..n]) + (if w[n] != s[n] then {n} else {});
    }
  }

  lemma {:induction false} HammingAtLeast(w: Bytes, s: Bytes, j: nat, k: nat)
    requires |w| == |s| && j < |w| && k < |w| && w[j] != s[j] && w[k] != s[k]
    ensures Hamming(w, s) >= if j == k then 1 else 2
  {
    var n := |w| - 1;
    if j < n && k < n {
      HammingAtLeast(w[..n], s[..n], j, k);
    } else if j < n {
      HammingAtLeast(w[..n], s[..n], j, j);
    } else if k < n {
      HammingAtLeast(w[..n], s[..n], k, k);
    }
  }

  /** A reordering that is not the alphabet itself differs from it in at least two places. */
  lemma MutationsDifferTwice(alphabet: Alphabet, w: Bytes)
    requires Permutes(alphabet, w) && w != Symbols(alphabet)
    ensures |w| == SYMBOLS && Hamming(w, Symbols(alphabet)) >= 2
  {
    hide Hamming;
    var s := Symbols(alphabet);
    assert |w| == |multiset(w)| == |multiset(s)| == SYMBOLS;
    DistinctMembersPermute(alphabet, w);
    var j :| 0 <= j < SYMBOLS && w[j] != s[j];
    var k := Place(alphabet, w[j]).value;
    assert s[k] == w[j] && k != j;
    assert w[k] != s[k];
    HammingAtLeast(w, s, j, k);
  }

  // ---------------------------------------------------------------------------
  // One window.

  /** The kind of a window of 64 bytes, if it is one of the alphabets up to order. */
  ghost function Classified(w: Bytes): Option<Kind>
    requires |w| == SYMBOLS
  {
    if w == Symbols(Standard) then Some(Exact(Standard))
    else if w == Symbols(UrlSafe) then Some(Exact(UrlSafe))
    else if Permutes(Standard, w) then Some(Mutated(Standard, Hamming(w, Symbols(Standard))))
    else if Permutes(UrlSafe, w) then Some(Mutated(UrlSafe, Hamming(w, Symbols(UrlSafe))))
    else None
  }

  /** Counts the different bytes, up to the first one that is not printable. */
  method CountDistinct(w: Bytes) returns (printable: bool, distinct: nat)
    requires |w| == SYMBOLS
    ensures printable <==> forall j :: 0 <= j < |w| ==> 0x21 <= w[j] <= 0x7E
    ensures printable ==> (distinct == SYMBOLS <==> Distinct(w))
  {
    hide Distinct, Elements;
    var seen := new bool[256](_ => false);
    printable, distinct := true, 0;
    NoElements();
    for j := 0 to SYMBOLS
      invariant printable && distinct == |Elements(w[..j])|
      invariant forall k :: 0 <= k < j ==> 0x21 <= w[k] <= 0x7E
      invariant forall b: u8 :: seen[b] <==> b in Elements(w[..j])
    {
      var b := w[j];
      if b < 0x21 || b > 0x7E {
        return false, distinct;
      }
      assert w[..j + 1] == w[..j] + [b];
      ElementsAppend(w[..j], b);
      if !seen[b] {
        seen[b] := true;
        distinct := distinct + 1;
      }
    }
    assert w[..SYMBOLS] == w;
    DistinctCount(w);
  }

  method AllMembers(alphabet: Alphabet, w: Bytes) returns (all: bool)
    ensures all <==> DrawnFrom(alphabet, w)
  {
    hide Member;
    for j := 0 to |w|
      invariant forall k :: 0 <= k < j ==> Member(alphabet, w[k])
    {
      if !Member(alphabet, w[j]) {
        return false;
      }
    }
    all := true;
  }

  method CountDiffering(w: Bytes, s: Bytes) returns (delta: nat)
    requires |w| == |s|
    ensures delta == Hamming(w, s)
  {
    delta := 0;
    for j := 0 to |w|
      invariant delta == Hamming(w[..j], s[..j])
    {
      assert w[..j + 1][..j] == w[..j] && s[..j + 1][..j] == s[..j];
      if w[j] != s[j] {
        delta := delta + 1;
      }
    }
    assert w[..|w|] == w && s[..|s|] == s;
  }

  /** Two comparisons, then the cheap tests that together decide whether the window is a reordering. */
  method ClassifyWindow(w: Bytes) returns (kind: Option<Kind>)
    requires |w| == SYMBOLS
    ensures kind == Classified(w)
  {
    hide Distinct, DrawnFrom, Permutes, Hamming, Symbols;
    if w == Symbols(Standard) {
      return Some(Exact(Standard));
    }
    if w == Symbols(UrlSafe) {
      return Some(Exact(UrlSafe));
    }
    DistinctMembersPermute(Standard, w);
    DistinctMembersPermute(UrlSafe, w);
    MembersPrintable(Standard, w);
    MembersPrintable(UrlSafe, w);
    var printable, distinct := CountDistinct(w);
    if printable && distinct == SYMBOLS {
      var inStd := AllMembers(Standard, w);
      if inStd {
        var delta := CountDiffering(w, Symbols(Standard));
        return Some(Mutated(Standard, delta));
      }
      var inUrl := AllMembers(UrlSafe, w);
      if inUrl {
        var delta := CountDiffering(w, Symbols(UrlSafe));
        return Some(Mutated(UrlSafe, delta));
      }
    }
    kind := None;
  }

  lemma MembersPrintable(alphabet: Alphabet, w: Bytes)
    ensures DrawnFrom(alphabet, w) ==> forall j :: 0 <= j < |w| ==> 0x21 <= w[j] <= 0x7E
  {
  }

  // ---------------------------------------------------------------------------
  // A buffer.

  datatype Hit = Hit(offset: nat, kind: Kind)

  /** Scanning from `i`: each hit takes its whole window, and there are at most `room` of them. */
  ghost function Hits(buffer: Bytes, i: nat, room: nat): seq<Hit>
    decreases |buffer| - i
  {
    if |buffer| < i + SYMBOLS || room == 0 then []
    else
      var kind := Classified(buffer[i..i + SYMBOLS]);
      if kind.Some? then [Hit(i, kind.value)] + Hits(buffer, i + SYMBOLS, room - 1)
      else Hits(buffer, i + 1, room)
  }

  /** Hits whose address does not exist are dropped. */
  ghost function Matches(buffer: Bytes, base: u64, hits: seq<Hit>): seq<Match>
    requires forall k :: 0 <= k < |hits| ==> hits[k].offset + SYMBOLS <= |buffer|
  {
    if hits == [] then []
    else
      var h := hits[|hits| - 1];
      Matches(buffer, base, hits[..|hits| - 1])
      + (if base + h.offset <= U64_MAX then [Match(base + h.offset, h.kind, buffer[h.offset..h.offset + SYMBOLS])] else [])
  }

  method ScanAlphabets(buffer: Bytes, base: u64) returns (matches: seq<Match>)
    requires |buffer| <= U64_MAX
    ensures forall k :: 0 <= k < |Hits(buffer, 0, MAX_PER_SECTION)| ==>
              Hits(buffer, 0, MAX_PER_SECTION)[k].offset + SYMBOLS <= |buffer|
    ensures matches == Matches(buffer, base, Hits(buffer, 0, MAX_PER_SECTION))
    ensures |matches| <= 16 && forall j, k :: 0 <= j < k < |matches| ==> matches[j].address + 64 <= matches[k].address
    ensures forall m :: m in matches <==>
              exists k :: 0 <= k < |Hits(buffer, 0, 16)| && MatchOf(buffer, base, Hits(buffer, 0, 16)[k], m)
  {
    hide Classified, Hits, Matches, MatchOf;
    HitsAre(buffer, 0, MAX_PER_SECTION);
    MatchesExactly(buffer, base, Hits(buffer, 0, MAX_PER_SECTION));
    MatchesAscend(buffer, base, Hits(buffer, 0, MAX_PER_SECTION));
    NoMatches(buffer, base);
    ghost var all := Hits(buffer, 0, MAX_PER_SECTION);
    ghost var done: seq<Hit> := [];
    matches := [];
    var i, emitted := 0, 0;
    while i + SYMBOLS <= |buffer| && emitted < MAX_PER_SECTION
      invariant emitted <= MAX_PER_SECTION
      invariant all == done + Hits(buffer, i, MAX_PER_SECTION - emitted)
      invariant forall k :: 0 <= k < |done| ==> done[k].offset + SYMBOLS <= |buffer|
      invariant matches == Matches(buffer, base, done)
      decreases |buffer| - i
    {
      HitsStep(buffer, i, MAX_PER_SECTION - emitted);
      var w := buffer[i..i + SYMBOLS];
      var kind := ClassifyWindow(w);
      if kind.Some? {
        var hit := Hit(i, kind.value);
        assert (done + [hit])[..|done|] == done;
        OneMoreMatch(buffer, base, done, hit);
        var address := CheckedAddressAdd(base, i);
        if address.Some? {
          matches := matches + [Match(address.value, kind.value, w)];
        }
        done := done + [hit];
        i := i + SYMBOLS;
        emitted := emitted + 1;
      } else {
        i := i + 1;
      }
    }
    HitsEnd(buffer, i, MAX_PER_SECTION - emitted);
    assert all == done;
  }

  /** The match of a hit: its address, which exists, what it is, and its 64 bytes. */
  ghost predicate MatchOf(buffer: Bytes, base: u64, h: Hit, m: Match) {
    && base + h.offset <= 0xFFFF_FFFF_FFFF_FFFF && m.address == base + h.offset && m.kind == h.kind
    && h.offset + 64 <= |buffer| && m.window == buffer[h.offset..h.offset + 64]
  }

  lemma NoMatches(buffer: Bytes, base: u64)
    ensures Matches(buffer, base, []) == []
  {
  }

  lemma OneMoreMatch(buffer: Bytes, base: u64, hits: seq<Hit>, h: Hit)
    requires forall k :: 0 <= k < |hits + [h]| ==> (hits + [h])[k].offset + SYMBOLS <= |buffer|
    ensures forall k :: 0 <= k < |hits| ==> hits[k].offset + SYMBOLS <= |buffer|
    ensures h.offset + SYMBOLS <= |buffer|
    ensures Matches(buffer, base, hits + [h]) ==
            Matches(buffer, base, hits)
            + (if base + h.offset <= U64_MAX then [Match(base + h.offset, h.kind, buffer[h.offset..h.offset + SYMBOLS])] else [])
  {
    assert forall k :: 0 <= k < |hits| ==> hits[k] == (hits + [h])[k];
    assert (hits + [h])[|hits|] == h && (hits + [h])[..|hits|] == hits;
  }

  lemma OneMoreMember(buffer: Bytes, base: u64, hits: seq<Hit>, h: Hit)
    requires forall k :: 0 <= k < |hits + [h]| ==> (hits + [h])[k].offset + SYMBOLS <= |buffer|
    ensures forall k :: 0 <= k < |hits| ==> hits[k].offset + SYMBOLS <= |buffer|
    ensures forall m :: m in Matches(buffer, base, hits + [h]) <==> m in Matches(buffer, base, hits) || MatchOf(buffer, base, h, m)
    ensures |Matches(buffer, base, hits + [h])| <= |Matches(buffer, base, hits)| + 1
  {
    hide Matches;
    OneMoreMatch(buffer, base, hits, h);
  }

  /** What is reported is the matches of the hits, and nothing else. */
  lemma {:induction false} MatchesExactly(buffer: Bytes, base: u64, hits: seq<Hit>)
    requires forall k :: 0 <= k < |hits| ==> hits[k].offset + SYMBOLS <= |buffer|
    ensures |Matches(buffer, base, hits)| <= |hits|
    ensures forall m :: m in Matches(buffer, base, hits) <==> exists k :: 0 <= k < |hits| && MatchOf(buffer, base, hits[k], m)
  {
    hide Matches, MatchOf;
    if hits == [] {
      NoMatches(buffer, base);
    } else {
      var n := |hits| - 1;
      var before := hits[..n];
      assert hits == before + [hits[n]];
      MatchesExactly(buffer, base, before);
      OneMoreMember(buffer, base, before, hits[n]);
      assert forall k :: 0 <= k < n ==> hits[k] == before[k];
    }
  }

  /** Disjoint ascending hits give disjoint ascending matches. */
  lemma {:induction false} MatchesAscend(buffer: Bytes, base: u64, hits: seq<Hit>)
    requires forall k :: 0 <= k < |hits| ==> hits[k].offset + SYMBOLS <= |buffer|
    requires forall j, k :: 0 <= j < k < |hits| ==> hits[j].offset + SYMBOLS <= hits[k].offset
    ensures forall j, k :: 0 <= j < k < |Matches(buffer, base, hits)| ==>
              Matches(buffer, base, hits)[j].address + 64 <= Matches(buffer, base, hits)[k].address
  {
    hide Matches;
    if hits == [] {
      NoMatches(buffer, base);
    } else {
      var n := |hits| - 1;
      var before := hits[..n];
      assert hits == before + [hits[n]];
      MatchesAscend(buffer, base, before);
      OneMoreMatch(buffer, base, before, hits[n]);
      MatchesExactly(buffer, base, before);
      var earlier := Matches(buffer, base, before);
      forall j | 0 <= j < |earlier|
        ensures earlier[j].address + 64 <= base + hits[n].offset
      {
        assert earlier[j] in earlier;
        var k :| 0 <= k < |before| && MatchOf(buffer, base, before[k], earlier[j]);
        assert hits[k].offset + SYMBOLS <= hits[n].offset;
      }
    }
  }

  lemma HitsStep(buffer: Bytes, i: nat, room: nat)
    requires i + SYMBOLS <= |buffer| && 0 < room
    ensures var kind := Classified(buffer[i..i + SYMBOLS]);
            Hits(buffer, i, room) == if kind.Some? then [Hit(i, kind.value)] + Hits(buffer, i + SYMBOLS, room - 1)
                                     else Hits(buffer, i + 1, room)
  {
  }

  lemma HitsEnd(buffer: Bytes, i: nat, room: nat)
    requires |buffer| < i + SYMBOLS || room == 0
    ensures Hits(buffer, i, room) == []
  {
  }

  /** The window was reported, lies under a reported one, or came after the last one that fits the limit. */
  ghost predicate Accounted(buffer: Bytes, i: nat, room: nat, o: nat) {
    var hits := Hits(buffer, i, room);
    (exists k :: 0 <= k < |hits| && hits[k].offset <= o < hits[k].offset + SYMBOLS) ||
    (|hits| == room && forall k :: 0 <= k < |hits| ==> hits[k].offset + SYMBOLS <= o)
  }

  /** Reported windows are what they are called, disjoint and ascending, and no alphabet is passed over. */
  lemma {:induction false} HitsAre(buffer: Bytes, i: nat, room: nat)
    ensures |Hits(buffer, i, room)| <= room
    ensures forall k :: 0 <= k < |Hits(buffer, i, room)| ==>
              var h := Hits(buffer, i, room)[k];
              i <= h.offset && h.offset + SYMBOLS <= |buffer| &&
              Classified(buffer[h.offset..h.offset + SYMBOLS]) == Some(h.kind)
    ensures forall j, k :: 0 <= j < k < |Hits(buffer, i, room)| ==>
              Hits(buffer, i, room)[j].offset + SYMBOLS <= Hits(buffer, i, room)[k].offset
    ensures forall o :: i <= o && o + SYMBOLS <= |buffer| && Classified(buffer[o..o + SYMBOLS]).Some? ==>
              Accounted(buffer, i, room, o)
    decreases |buffer| - i
  {
    hide Classified, Hits, Accounted;
    if |buffer| < i + SYMBOLS || room == 0 {
      HitsEnd(buffer, i, room);
      NothingToAccount(buffer, i, room);
    } else {
      HitsStep(buffer, i, room);
      var kind := Classified(buffer[i..i + SYMBOLS]);
      var next, left := if kind.Some? then i + SYMBOLS else i + 1, if kind.Some? then room - 1 else room;
      HitsAre(buffer, next, left);
      forall o | i <= o && o + SYMBOLS <= |buffer| && Classified(buffer[o..o + SYMBOLS]).Some?
        ensures Accounted(buffer, i, room, o)
      {
        AccountStep(buffer, i, room, o);
      }
    }
  }

  lemma NothingToAccount(buffer: Bytes, i: nat, room: nat)
    requires |buffer| < i + SYMBOLS || room == 0
    ensures forall o :: i <= o && o + SYMBOLS <= |buffer| ==> Accounted(buffer, i, room, o)
  {
  }

  lemma AccountStep(buffer: Bytes, i: nat, room: nat, o: nat)
    requires i + SYMBOLS <= |buffer| && 0 < room && i <= o && o + SYMBOLS <= |buffer|
    requires Classified(buffer[o..o + SYMBOLS]).Some?
    requires var found := Classified(buffer[i..i + SYMBOLS]).Some?;
             var next, left := if found then i + SYMBOLS else i + 1, if found then room - 1 else room;
             next <= o ==> Accounted(buffer, next, left, o)
    ensures Accounted(buffer, i, room, o)
  {
    hide Classified, Hits;
    HitsStep(buffer, i, room);
    var kind := Classified(buffer[i..i + SYMBOLS]);
    var hits := Hits(buffer, i, room);
    if kind.Some? {
      var rest := Hits(buffer, i + SYMBOLS, room - 1);
      assert hits[0] == Hit(i, kind.value) && forall k :: 0 <= k < |rest| ==> hits[k + 1] == rest[k];
      if o >= i + SYMBOLS {
        if k :| 0 <= k < |rest| && rest[k].offset <= o < rest[k].offset + SYMBOLS {
          assert hits[k + 1].offset <= o < hits[k + 1].offset + SYMBOLS;
        }
      }
    }
  }

  /** What is called mutated is a reordering, changed in at least two places; what is called exact is exact. */
  lemma KindsSpeakTrue(w: Bytes)
    requires |w| == SYMBOLS && Classified(w).Some?
    ensures Permutes(Classified(w).value.alphabet, w)
    ensures Classified(w).value.Exact? <==> w == Symbols(Classified(w).value.alphabet)
    ensures Classified(w).value.Mutated? ==> 2 <= Classified(w).value.differing <= SYMBOLS
    ensures Classified(w).value.Mutated? ==>
              Classified(w).value.differing == |Differing(w, Symbols(Classified(w).value.alphabet))|
  {
    hide Hamming, Symbols, Differing;
    var kind := Classified(w).value;
    if kind.Mutated? {
      HammingCounts(w, Symbols(kind.alphabet));
      MutationsDifferTwice(kind.alphabet, w);
      HammingAtMost(w, Symbols(kind.alphabet));
    }
  }

  lemma {:induction false} HammingAtMost(w: Bytes, s: Bytes)
    requires |w| == |s|
    ensures Hamming(w, s) <= |w|
  {
    if w != [] {
      HammingAtMost(w[..|w| - 1], s[..|s| - 1]);
    }
  }

  // ---------------------------------------------------------------------------
  // When an alphabet is reported as itself.

  ghost predicate ReportedAt(buffer: Bytes, room: nat, o: int) {
    exists k :: 0 <= k < |Hits(buffer, 0, room)| && Hits(buffer, 0, room)[k].offset == o
  }

  /** As many windows as may be reported end at or before this offset. */
  ghost predicate Exhausted(buffer: Bytes, room: nat, o: nat) {
    var hits := Hits(buffer, 0, room);
    |hits| == room && forall k :: 0 <= k < |hits| ==> hits[k].offset + SYMBOLS <= o
  }

  /** The `d` bytes before `o` reorder the last `d` symbols of an alphabet that starts like this one. */
  ghost predicate TailBefore(buffer: Bytes, o: nat, alphabet: Alphabet, d: nat)
    requires d <= o <= |buffer| && d <= SYMBOLS
  {
    TailOf(alphabet, buffer[o - d..o]) || (2 <= d && TailOf(Other(alphabet), buffer[o - d..o]))
  }

  function Other(alphabet: Alphabet): Alphabet {
    if alphabet == Standard then UrlSafe else Standard
  }

  ghost predicate TailOf(alphabet: Alphabet, before: Bytes)
    requires |before| <= SYMBOLS
  {
    multiset(before) == multiset(Symbols(alphabet)[SYMBOLS - |before|..])
  }

  lemma SameStart(a: Alphabet, b: Alphabet, n: nat)
    requires n <= SYMBOLS && (a == b || n <= SYMBOLS - 2)
    ensures Symbols(a)[..n] == Symbols(b)[..n]
  {
  }

  lemma CancelPermutes(alphabet: Alphabet, before: Bytes, start: Bytes)
    requires |before| + |start| == SYMBOLS && start == Symbols(alphabet)[..|start|]
    ensures Permutes(alphabet, before + start) <==> TailOf(alphabet, before)
  {
    hide Symbols;
    var s := Symbols(alphabet);
    assert s == start + s[|start|..];
    assert multiset(before) == (multiset(before) + multiset(start)) - multiset(start);
    assert multiset(s[|start|..]) == (multiset(start) + multiset(s[|start|..])) - multiset(start);
  }

  /** Sixty-three symbols of one alphabet hold a byte the other one lacks. */
  lemma OtherLacks(alphabet: Alphabet, other: Alphabet, w: Bytes)
    requires alphabet != other && Symbol(alphabet, 62) in w
    ensures !Permutes(other, w)
  {
    var b := Symbol(alphabet, 62);
    assert b !in Symbols(other);
    assert multiset(w)[b] > 0 && multiset(Symbols(other))[b] == 0;
  }

  lemma ClassifiedIff(w: Bytes)
    requires |w| == SYMBOLS
    ensures Classified(w).Some? <==> Permutes(Standard, w) || Permutes(UrlSafe, w)
  {
    hide Symbols, Hamming;
  }

  /** A window that reaches into an alphabet is taken for one exactly when the bytes before complete it. */
  lemma ShadowIff(buffer: Bytes, o: nat, alphabet: Alphabet, d: nat)
    requires 1 <= d < SYMBOLS && d <= o && o + SYMBOLS <= |buffer| && buffer[o..o + SYMBOLS] == Symbols(alphabet)
    ensures Classified(buffer[o - d..o - d + SYMBOLS]).Some? <==> TailBefore(buffer, o, alphabet, d)
  {
    hide Symbols, Classified, Permutes, TailOf;
    var before, start := buffer[o - d..o], Symbols(alphabet)[..SYMBOLS - d];
    var w := buffer[o - d..o - d + SYMBOLS];
    assert w == before + buffer[o..o - d + SYMBOLS] && buffer[o..o - d + SYMBOLS] == buffer[o..o + SYMBOLS][..SYMBOLS - d];
    ClassifiedIff(w);
    forall other: Alphabet
      ensures Permutes(other, w) <==> (other == alphabet || 2 <= d) && TailOf(other, before)
    {
      if other == alphabet || 2 <= d {
        SameStart(alphabet, other, SYMBOLS - d);
        CancelPermutes(other, before, start);
      } else {
        assert w[SYMBOLS - 1] == start[SYMBOLS - 2] == Symbols(alphabet)[62];
        OtherLacks(alphabet, other, w);
      }
    }
  }

  /** An alphabet is reported as itself exactly when no window that takes its first bytes is, and some may still be reported. */
  lemma AlphabetReportedIff(buffer: Bytes, room: nat, o: nat, alphabet: Alphabet)
    requires o + SYMBOLS <= |buffer| && buffer[o..o + SYMBOLS] == Symbols(alphabet)
    ensures Hit(o, Exact(alphabet)) in Hits(buffer, 0, room) <==>
            !Exhausted(buffer, room, o) &&
            forall d :: 1 <= d < SYMBOLS && d <= o && TailBefore(buffer, o, alphabet, d) ==> !ReportedAt(buffer, room, o - d)
  {
    hide Symbols, Classified, TailBefore, Hits;
    var hits := Hits(buffer, 0, room);
    HitsAre(buffer, 0, room);
    ExactlyItself(alphabet);
    assert Accounted(buffer, 0, room, o);
    if Hit(o, Exact(alphabet)) in hits {
      var k :| 0 <= k < |hits| && hits[k] == Hit(o, Exact(alphabet));
      assert !(hits[k].offset + SYMBOLS <= o);
    } else if !Exhausted(buffer, room, o) {
      var k :| 0 <= k < |hits| && hits[k].offset <= o < hits[k].offset + SYMBOLS;
      assert hits[k] in hits;
      var d := o - hits[k].offset;
      ShadowIff(buffer, o, alphabet, d);
      assert ReportedAt(buffer, room, o - d);
    }
  }

  lemma ExactlyItself(alphabet: Alphabet)
    ensures Classified(Symbols(alphabet)) == Some(Exact(alphabet))
  {
    hide Hamming, Permutes;
    assert Symbols(UrlSafe)[62] == 0x2D && Symbols(Standard)[62] == 0x2B;
  }

  /** So an alphabet behind bytes that complete no window is reported as itself while the limit lasts. */
  lemma AlphabetReported(buffer: Bytes, room: nat, o: nat, alphabet: Alphabet)
    requires o + SYMBOLS <= |buffer| && buffer[o..o + SYMBOLS] == Symbols(alphabet)
    requires forall d :: 1 <= d < SYMBOLS && d <= o ==> !TailBefore(buffer, o, alphabet, d)
    ensures Hit(o, Exact(alphabet)) in Hits(buffer, 0, room) <==> !Exhausted(buffer, room, o)
  {
    hide Symbols, TailBefore, Hits;
    AlphabetReportedIff(buffer, room, o, alphabet);
  }

  /** The last symbol in front of a standard alphabet hides it: what is reported is a mutated one, a byte earlier. */
  lemma SlashHides()
    ensures var buffer := [0x2F] + Symbols(Standard);
            && |Hits(buffer, 0, MAX_PER_SECTION)| == 1
            && Hits(buffer, 0, MAX_PER_SECTION)[0].offset == 0 && Hits(buffer, 0, MAX_PER_SECTION)[0].kind.Mutated?
  {
    hide Hits, Hamming, Permutes, Classified;
    var buffer: Bytes := [0x2F] + Symbols(Standard);
    var w := buffer[0..SYMBOLS];
    assert buffer[1..1 + SYMBOLS] == Symbols(Standard);
    assert Symbols(Standard)[63..] == [0x2F] && buffer[0..1] == [0x2F];
    assert TailOf(Standard, buffer[1 - 1..1]);
    ShadowIff(buffer, 1, Standard, 1);
    assert buffer[1 - 1..1 - 1 + SYMBOLS] == w;
    assert w[0] == 0x2F && Symbols(Standard)[0] == 0x41 && Symbols(UrlSafe)[0] == 0x41;
    KindsSpeakTrue(w);
    HitsStep(buffer, 0, MAX_PER_SECTION);
    HitsEnd(buffer, SYMBOLS, MAX_PER_SECTION - 1);
  }
}
