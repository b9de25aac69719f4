/** From re-cut pages to instructions: the lazy pages of one code run decode as the run itself. */
module RunDecoding {
  import opened Machine
  import opened ListingDecode
  import N = RootNormalization

  /** The sizes of the pages in `[i, j)`. */
  ghost function Sizes(rows: seq<N.Row>, i: nat, j: nat): (sizes: seq<u64>)
    requires i <= j <= |rows| && forall k :: i <= k < j ==> rows[k].CodePage?
    ensures |sizes| == j - i && forall k :: 0 <= k < |sizes| ==> sizes[k] == rows[i + k].aux
    decreases j - i
  {
    if i == j then [] else [rows[i].aux] + Sizes(rows, i + 1, j)
  }

  /** Rows that continue one another are non-empty pages whose addresses add up their sizes. */
  lemma {:induction false} ChainAddresses(rows: seq<N.Row>, i: nat, j: nat)
    requires i < j <= |rows| && N.Chained(rows, i, j - 1) && rows[i].CodePage? && rows[i].aux > 0
    ensures forall k :: i <= k < j ==> rows[k].CodePage? && rows[k].aux > 0
    ensures forall k :: i <= k < j ==> rows[k].addr == rows[i].addr + Total(Sizes(rows, i, k))
    decreases j - i
  {
    if i + 1 < j {
      assert N.Joins(rows[i], rows[i + 1]);
      ChainAddresses(rows, i + 1, j);
      forall k | i < k < j
        ensures rows[k].addr == rows[i].addr + Total(Sizes(rows, i, k))
      {
        assert Sizes(rows, i, k)[1..] == Sizes(rows, i + 1, k);
      }
    }
  }

  /** Rows between two pages of one number are non-empty pages that follow one another. */
  lemma OneRun(rows: seq<N.Row>, least: nat, i: nat, j: nat)
    requires N.WellNumbered(rows, least) && i < j <= |rows|
    requires rows[i].CodePage? && rows[j - 1].CodePage? && rows[i].region == rows[j - 1].region && rows[i].aux > 0
    ensures forall k :: i <= k < j ==> rows[k].CodePage? && rows[k].aux > 0
    ensures forall k :: i <= k < j ==> rows[k].addr == rows[i].addr + Total(Sizes(rows, i, k))
  {
    N.SharedChained(rows, least, i, j - 1);
    ChainAddresses(rows, i, j);
  }

  /**
    The pages over one root-free subrun of a listing, normalised and decoded one by one, give the rows of one
    linear decode of those bytes. Since a root starts a page, bytes before it take no part.
   */
  lemma NormalizedRunDecodesLinearly(rows: seq<N.Row>, roots: seq<u64>, i: nat, j: nat, c: Code, m: nat, lookahead: u64)
    requires N.Listing(rows) && N.Ascending(roots)
    requires var pages := N.Normalized(rows, roots);
             && i < j <= |pages| && pages[i].CodePage? && pages[i].aux > 0
             && N.OneSubrun(N.Items(rows, false), roots, N.Start(pages, i), N.Start(pages, j - 1))
    requires c.Valid() && c.base == N.Normalized(rows, roots)[i].addr && EnoughLookahead(c.d, m, lookahead)
    requires (forall k :: i <= k < j ==> N.Normalized(rows, roots)[k].CodePage?) ==>
               Total(Sizes(N.Normalized(rows, roots), i, j)) <= |c.bytes|
    ensures var pages := N.Normalized(rows, roots);
            && (forall k :: i <= k < j ==> pages[k].CodePage?)
            && (forall k :: i <= k < j ==> pages[k].addr == c.base + Total(Sizes(pages, i, k)))
            && Pages(c, 0, Sizes(pages, i, j))
            && PagedDecode(c, 0, Sizes(pages, i, j), 0, lookahead).instructions ==
               c.Linear(0, Total(Sizes(pages, i, j))).rows
  {
    hide N.Normalized, N.OneSubrun, N.Items, N.Start, PagedDecode, Code.Sweep, Local, Sizes;
    var pages := N.Normalized(rows, roots);
    N.SubrunsAreChains(rows, roots, i, j - 1);
    ChainAddresses(pages, i, j);
    PagedDecodeIsLinear(c, m, 0, Sizes(pages, i, j), 0, lookahead);
  }
}
