# Verified model of the static-analysis listing core

A Dafny model of the parts of the reverse-engineering workbench whose correctness its views take for granted:
cutting an image into classified spans, lazy code pages and typed data rows; deciding where instructions
start; finding strings; caching and identifying derived results; and four stateful protocols around them.
Addresses are 64-bit, and statements include the last ones unless the end of this page says otherwise.

| file | what it models |
|---|---|
| `Machine.dfy` | word types, address arithmetic that never wraps |
| `ListingDecode.dfy` | decoding one lazy page, and its agreement with one linear decode |
| `ListingBoundaries.dfy` | the bounded walk and the checkpoint scan to a far page, and the agreement of all three routes |
| `ListingEstimate.dfy` | the constant-work vote for a page's continuation, the search for readable context |
| `CodeData.dfy`, `CodeDataOverrides.dfy` | the classified partition, its canonical form, analyst decisions laid over it |
| `XrefPlan.dfy` | which executable bytes a cross-reference pass decodes |
| `ListingRows.dfy`, `ListingAccounting.dfy` | the rows of a listing and what they account for |
| `DecisionEffects.dfy` | what an analyst decision means for both of those passes |
| `RootNormalization.dfy` | re-cutting code pages at authoritative roots |
| `ListingNormalization.dfy` | re-cutting the listing that was built for an image |
| `RunDecoding.dfy` | decoding the re-cut pages of one code run |
| `Utf8.dfy`, `StringRuns.dfy`, `StringScan.dfy`, `StringMerge.dfy` | the UTF-8 recogniser, maximal runs, the two scanners and their capped merge |
| `AnalysisCache.dfy` | the byte- and entry-bounded LRU, as a list with an index and as a function on its history |
| `Digest.dfy` | the framed FNV-1a digests of patches and overrides |
| `BoundaryAuthority.dfy` | retained analyst authority over instruction starts |
| `SaveProtocol.dfy` | the single asynchronous project writer and the transitions that join it |
| `CapturedPages.dfy` | which pages of a live image were captured, and when a dump is complete |
| `LongDouble.dfy` | rounding to the format a platform gives long double |
| `SyntheticClock.dfy` | one virtual timeline behind three time sources |
| `Base64Alphabet.dfy` | standard, URL-safe and permuted Base64 alphabets |

The loops and classes of the program are methods and classes here, each proved against a function or a
predicate on values; the lemmas then say what that specification means, down to the fields and bytes of the
inputs and the constants of the source. The decoder is an arbitrary function
of a window and an address. Statements that need it assume one thing of it: bytes beyond the first `m` of a
window never change what it accepts. The debugger, the project store, the writer thread and the backing of an
image are parameters with arbitrary answers.

Where the code does something a reader may not expect, the code is followed:

- Any applied decision drops a classified span that ends exactly at 2^64 (`CodeDataOverrides.CoverageUnchangedIff`
  gives the exact condition, `CodeDataOverrides.TopSpanIsLost` an input).
- The patch digest ignores the presentation group of a patch, so the stream is injective up to groups
  (`Digest.PatchStreamInjective` is the exact equivalence).
- A put that is too large to admit leaves the old value under its key readable: a put takes effect exactly when
  the caller's capacity test admits it (`AnalysisCache.PutTakesEffectIff`), and after any run the held value is
  the last one put exactly when that put was admitted (`AnalysisCache.HoldsLastPutIff`).
- More cache entries can lose a hit. They keep every hit of every run exactly when the smaller cache holds at most
  one entry or has no more bytes than entries (`AnalysisCache.InclusionIff`; `ByteBoundBreaksInclusion` is the run
  otherwise), and on a given run as long as the byte bound forces no eviction (`AnalysisCache.LargerCacheKeepsHits`).
- Page coverage counts bytes, so overlapping regions can make a page look complete
  (`CapturedPages.OverlapMiscounts` is a process on which they do); marks are right exactly when no two usable
  regions share an address other than zero (`CapturedPages.MarksRightIff`), as in the region list of a process.
- An accepted dump need not have its section table on captured pages (`CapturedPages.TableUnread` is a process and
  its reads). It does for all marks exactly when the pages of the table are asked for anyway
  (`CapturedPages.VerdictTrustedIff`, for any span of the image and so for the PE header too).
- A Base64 alphabet directly behind its own last symbol is reported as a mutated one a byte earlier
  (`Base64Alphabet.SlashHides`); `Base64Alphabet.AlphabetReportedIff` says when one is reported as itself.
- The system time is the exact quotient at every moment up to a frequency of 1,844,674,591,838 Hz and at no
  higher one (`SyntheticClocks.SystemTimeExactIff`), because there a saturated remainder shows its last unit too
  early; the shipped frequency is 10 MHz.
- Where long double is a double, the TSC can step back when it leaves the integer path
  (`SyntheticClocks.OddRunsBackwards`). It never runs backwards exactly when that one step goes forward
  (`SyntheticClocks.TscInOrderIff`), which it does for the shipped configuration.
- Code page numbers are 32-bit and wrap. They tell runs apart exactly while no more than 2^32 - 1 are taken
  (`RootNormalization.NumbersTellRunsIff`); conservation, idempotence and decoding do not depend on it.
- A project without content gets no first sidecar, so "durable" means that a reload finds the same project,
  which for such a project is an empty one.

`dafny verify dfyconfig.toml` checks everything.

## Model

| member | source | states |
|---|---|---|
| `AddressSpan.CheckedAddressAdd` | src/Core/AddressSpan.h:14-18 | a sum exists exactly when it is an address, and then it is the sum |
| `AddressSpan.ClampAddressableBytes` | src/Core/AddressSpan.h:31-40 | the count is the requested one cut to the addresses that exist from the start on |
| `AddressSpan.AddressInSpan` | src/Core/AddressSpan.h:42-47 | subtractive containment is containment in the mathematical interval, for spans that reach 2^64 too |
| `AddressSpan.SaturatingAdd` | src/Core/AddressSpan.h:52-57 | the mathematical sum clamped to the last address |
| `ListingDecode.DecodeListingCodePage` | src/Core/AnalysisJobs.cpp:1122-1163 | the rows from behind the prefix to the first boundary at or past the page's end, each the decoder's answer for the window at its address or, where it has none inside the window, a `db` row of the skipped width; and how far the last one reaches into the next page |
| `ListingDecode.SweepIsTheDecode` | src/Core/AnalysisJobs.cpp:1142-1156 | rows that follow one another and each show what the decoder says of their window are a sweep's rows, and there are no others |
| `ListingDecode.SweepTiles` | src/Core/AnalysisJobs.cpp:1122-1163 | the rows of any sweep follow one another without gap or overlap, up to the first boundary at or past the limit |
| `ListingDecode.SweepSplit` | src/Core/AnalysisJobs.cpp:1122-1163 | a linear decode may be cut anywhere and resumed at the row boundary that passes the cut, rows longer than a page included |
| `ListingDecode.SweepWindow` | src/Core/AnalysisJobs.cpp:1122-1163 | for a decoder that looks at no more than m bytes, shortening every window changes nothing while m bytes of lookahead remain |
| `ListingDecode.PageContinuesLinear` | src/Core/AnalysisJobs.cpp:1122-1163 | one page, given the skip of the pages before it, yields the rows and the continuation of the linear decode of everything |
| `ListingDecode.PagedDecodeIsLinear` | src/Core/AnalysisJobs.cpp:1122-1163 | decoding any partition of a run page by page, carrying each continuation, is the linear decode of the run, row for row |
| `ListingDecode.PagedDecodeIsOnePage` | src/Core/AnalysisJobs.cpp:1122-1163 | the same rows come from one call whose page is the whole run |
| `ListingBoundaries.ListingDecodeReaches` | src/Core/AnalysisJobs.cpp:1098-1120 | true exactly when rows that show what the decoder says lead from the start to exactly the target within the step limit |
| `ListingBoundaries.BuildListingPrefixCheckpoints` | src/Core/AnalysisJobs.cpp:1251-1321 | a request inside the byte cap lists every consecutive 4 KiB boundary up to the target with the linear decode's skip there, and is complete exactly when the target is such a boundary or the start; any other request returns nothing |
| `ListingBoundaries.ListedAddresses` | src/Core/AnalysisJobs.cpp:1251-1321 | the addresses listed are exactly the 4 KiB boundaries of the section's grid from the start to the target |
| `ListingBoundaries.SkipShown` | src/Core/AnalysisJobs.cpp:1290-1312 | a listed skip is how far the rows of the decode up to that boundary reach past it |
| `ListingBoundaries.CheckpointIsChainedSkip` | src/Core/AnalysisJobs.cpp:1122-1163 | the skip of a checkpoint is what chained page decoding carries into that page |
| `ListingBoundaries.CheckpointZeroIffReaches` | src/Core/AnalysisJobs.cpp:1098-1120 | a checkpoint's skip is zero exactly when the bounded walk, given a step per byte, lands on the page |
| `ListingBoundaries.CheckpointsAgree` | src/Core/AnalysisJobs.cpp:1251-1321 | for every checkpoint of every answer, all three routes to a page boundary agree |
| `ListingBoundaries.WalksCoincide` | src/Core/AnalysisJobs.cpp:1098-1120 | the bounded walk over a buffer that reaches past the last address lands exactly where the walk over its addressable bytes does, as long as a full lookahead has addresses |
| `ListingBoundaries.PageOfTail` | src/Core/AnalysisJobs.cpp:1122-1163 | a page call gives the same for the tail of a buffer and for the tail of its addressable part |
| `ListingBoundaries.CallsAgree` | src/Core/AnalysisJobs.cpp:1098-1321 | the answers of the three calls on one buffer agree at every listed checkpoint |
| `ListingEstimate.EstimateListingPagePrefix` | src/Core/AnalysisJobs.cpp:1191-1249 | for every input at most 15 candidates, 120 decoder calls and a skip of at most 15; calls and candidates are those of the traces, and the skip is the first one that no other beats in votes and then evidence, over the surviving candidates |
| `ListingEstimate.VotesSumToSurvivors` | src/Core/AnalysisJobs.cpp:1191-1249 | the votes over all skips add up to the surviving candidates |
| `ListingEstimate.StreamCandidateVotesExact` | src/Core/AnalysisJobs.cpp:1191-1249 | a surviving candidate that lies on the true instruction stream votes for the exact continuation |
| `ListingEstimate.TraceIsExact` | src/Core/AnalysisJobs.cpp:1191-1249 | a trace that survives ends where the linear decode enters the page |
| `ListingEstimate.TraceIsAccepted` | src/Core/AnalysisJobs.cpp:1204-1229 | a candidate survives exactly when rows the decoder accepts lead from it to the page, as many as its calls |
| `ListingEstimate.TraceIsRejected` | src/Core/AnalysisJobs.cpp:1217-1223 | a candidate that does not survive stops at the first row the decoder rejects, one call behind the accepted ones |
| `ListingEstimate.VotesAreVoters` | src/Core/AnalysisJobs.cpp:1204-1236 | the votes for a skip count the candidates, whole alignment steps apart, whose trace ends there |
| `ListingEstimate.EvidenceIs` | src/Core/AnalysisJobs.cpp:1230-1236 | the evidence for a skip is the look-behind of its voters |
| `ListingEstimate.LongestReadableLookback` | src/Core/AnalysisJobs.cpp:1082-1096 | the length found is readable and, when readability can only be lost by asking for more, no longer one is |
| `CodeData.Find` | src/Core/AddressInspector.cpp:62-71 | the predecessor search finds the span of a byte exactly when one holds it |
| `CodeData.StretchAt` | src/Core/AnalysisJobs.cpp:782-794 | span or gap, the classification of the byte and exactly how far it extends |
| `CodeData.CanonicalUnique` | src/Core/AnalysisJobs.cpp:140-156 | a merged partition is determined by what it says about each byte |
| `CodeData.Coalesce` | src/Core/AnalysisJobs.cpp:140-156 | neighbours are maximally merged; what is said about each byte and the bytes covered stay |
| `CodeDataOverrides.ApplyCodeDataOverrides` | src/Core/AnalysisJobs.cpp:56-165 | each classified byte takes kind, width and confidence from the last decision that rules over it and otherwise keeps what it said; the result is sorted, disjoint, maximally merged, and its counters and digest are those of the spans |
| `CodeDataOverrides.RebuiltMeans` | src/Core/AnalysisJobs.cpp:56-132 | what a rebuilt map says of any byte, by the kind and type name of the decision that rules over it |
| `CodeDataOverrides.ScopeStreamInjective` | src/Core/AnalysisJobs.cpp:36-54 | two maps feed the scope digest the same bytes exactly when they agree on truncation and on every span's place and kind |
| `CodeDataOverrides.OverlayDecision` | src/Core/AnalysisJobs.cpp:104-137 | one decision replaces exactly the covered bytes inside it and moves no boundary of the whole |
| `CodeDataOverrides.SameEffectSameSpans` | src/Core/AnalysisJobs.cpp:96-165 | two override lists with the same effect on every byte give the identical span list |
| `CodeDataOverrides.CoverageUnchangedIff` | src/Core/AnalysisJobs.cpp:108 | coverage survives exactly when no decision is applied or no span ends at 2^64 |
| `CodeDataOverrides.TopSpanIsLost` | src/Core/AnalysisJobs.cpp:108 | a concrete map whose last byte loses its classification to a decision elsewhere |
| `CodeDataOverrides.RebuildStats` | src/Core/AnalysisJobs.cpp:157-162 | every counter is the number of bytes of its kind, and the two decode counters are kept |
| `CodeDataOverrides.KindsPartitionTotal` | src/Core/AnalysisJobs.cpp:77-94 | code, unknown and data bytes together are the executable bytes |
| `RootNormalization.NormalizeListingCodePagesAtRoots` | src/Core/AnalysisJobs.cpp:997-1080 | one pass computes the runs of the listing cut at the sorted roots, repaginated, each subrun under the next number, through the wrap of the 32-bit counter |
| `RootNormalization.NormalizeConserves` | src/Core/AnalysisJobs.cpp:997-1080 | every code byte, empty page and other row is kept in order; a byte continues its predecessor's run exactly when it did before and is no root |
| `RootNormalization.NormalizeIdempotent` | src/Core/AnalysisJobs.cpp:997-1080 | normalising the result again with the same roots returns it unchanged |
| `RootNormalization.NormalizedWellNumbered` | src/Core/AnalysisJobs.cpp:997-1080 | pages are at most 4 KiB, a page whose run goes on is no smaller, and until the counter wraps pages under one number form one uninterrupted run |
| `RootNormalization.NumbersTellRunsIff` | src/Core/AnalysisJobs.cpp:1004-1014 | two pages share a number exactly when they lie in one root-free contiguous subrun of the original listing; this holds for all pages if and only if at most 2^32 - 1 numbers are taken |
| `RootNormalization.SubrunsAreChains` | src/Core/AnalysisJobs.cpp:1033-1077 | rows of the result continue one another exactly when they lie in one root-free contiguous subrun of the original listing |
| `RootNormalization.PageContinues` | src/Core/AnalysisJobs.cpp:1033-1045 | the first byte of a page continues the byte before it exactly when that ends a non-empty page of the same number and section right before it |
| `RootNormalization.NormalizePagesSameBytes` | src/Core/AnalysisJobs.cpp:997-1080 | whatever the roots, a byte is paged in a section afterwards exactly when it was before |
| `RootNormalization.RootStartsPage` | src/Core/AnalysisJobs.cpp:1052-1076 | every root over a listed code byte starts a page |
| `RootNormalization.ParseRender` | src/Core/AnalysisJobs.cpp:997-1080 | reading the emitted pages back gives the runs they were emitted for |
| `RootNormalization.RunBoundaries` | src/Core/AnalysisJobs.cpp:1052-1058 | one pass from the lower bound finds exactly the roots strictly inside the run |
| `RunDecoding.NormalizedRunDecodesLinearly` | src/Core/AnalysisJobs.cpp:997-1163 | the pages over one root-free subrun, decoded one by one from its start, give the rows of one linear decode of those bytes |
| `RunDecoding.OneRun` | src/Core/AnalysisJobs.cpp:997-1080 | rows between two pages of one number are non-empty pages that follow one another |
| `ListingNormalization.RootedListing` | src/Tabs/BinaryViewTab.cpp:25598-25619 | building a listing and re-cutting it pages, section by section, exactly the bytes that an unfolded executable region maps and no span of a current map calls data, and a root starts a page exactly when it lies over such a byte |
| `ListingNormalization.BuiltListing` | src/Core/AnalysisJobs.cpp:811-995 | every listing that is built is one normalisation accepts: its pages are addressable and no run covers the whole address space |
| `ListingNormalization.RootStartsPageIff` | src/Core/AnalysisJobs.cpp:997-1080 | for any spans, regions, budgets and roots, a root starts a page of the normalised listing exactly when it lies over a byte listed as code |
| `XrefPlan.PlanXrefRanges` | src/Core/AnalysisJobs.cpp:739-809 | a byte of a section is decoded exactly when the section is executable and backs it and no span of a usable map calls it data; the counters are the numbers of both sorts of bytes, saturated; ranges are those of a byte-by-byte reference |
| `XrefPlan.PlanMeans` | src/Core/AnalysisJobs.cpp:739-809 | the ranges and counters of a plan in terms of the fields of sections and spans alone |
| `XrefPlan.WellFormed` | src/Core/AnalysisJobs.cpp:743-760 | a map is accepted exactly when its spans are non-empty, disjoint, ascending, addressable and of known kinds |
| `XrefPlan.PlanSection` | src/Core/AnalysisJobs.cpp:777-806 | joining span-sized stretches gives the ranges that single bytes would |
| `XrefPlan.RangesExact` | src/Core/AnalysisJobs.cpp:777-806 | the ranges of a section hold exactly the bytes that are not data, each once, and leave a gap between them |
| `XrefPlan.PlanPartitions` | src/Core/AnalysisJobs.cpp:739-809 | in the plan of all sections every file-backed executable byte is in exactly one range of its section, or it is data and in none |
| `XrefPlan.PlanConserves` | src/Core/AnalysisJobs.cpp:739-809 | decoded bytes and data bytes together are the mapped bytes |
| `XrefPlan.NoMapDecodesAll` | src/Core/AnalysisJobs.cpp:742-761 | without an applicable map every section is decoded whole and nothing counts as data |
| `ListingRows.BuildListingRows` | src/Core/AnalysisJobs.cpp:811-995 | the rows of all regions: a header each and, when unfolded, the stably sorted content that stretches, budgets and code numbers determine; a map of another revision takes no part |
| `ListingRows.Shape` | src/Core/AnalysisJobs.cpp:884-891 | a directive holds 1 to 16 bytes, whole elements of the requested width as long as one fits |
| `ListingRows.AppendStrings` | src/Core/AnalysisJobs.cpp:852-869 | searching the first string and stopping behind the last gives exactly the strings of the stretch |
| `ListingRows.ByAddressOrdered` | src/Core/AnalysisJobs.cpp:823-826 | every string is in the view once, by ascending address |
| `ListingAccounting.ContentTiles` | src/Core/AnalysisJobs.cpp:917-982 | pages, directives and omissions of an executable region cover its mapped bytes, in order, without gap or overlap |
| `ListingAccounting.ContentFits` | src/Core/AnalysisJobs.cpp:917-982 | no row speaks for a byte of another kind; pages are at most 4 KiB, directives 1 to 16 bytes and whole elements of the width the map gives while one fits |
| `ListingAccounting.ContentBudgets` | src/Core/AnalysisJobs.cpp:871-915 | the data shown is all the data or what the tighter budget leaves, and page bytes are what a cross-reference pass decodes |
| `ListingAccounting.ContentNumbered` | src/Core/AnalysisJobs.cpp:945-967 | page numbers follow the data between the pages |
| `ListingAccounting.NumbersSeparate` | src/Core/AnalysisJobs.cpp:945-967 | two pages share a number exactly when no data lies between them |
| `ListingAccounting.SortKeeps` | src/Core/AnalysisJobs.cpp:976-991 | sorting orders the rows, loses none, and keeps the byte-holding rows as they were among the string rows |
| `ListingAccounting.RegionAccounts` | src/Core/AnalysisJobs.cpp:811-995 | every unfolded region accounts for each mapped byte once and shows min(data, 1 MiB, remaining budget) of it |
| `ListingAccounting.ExecutableRegionSpeaksTrue` | src/Core/AnalysisJobs.cpp:917-982 | in the sorted rows of an executable region all rows fit the map, and code numbers change exactly across data and are fresh |
| `ListingAccounting.ListingWithinBudget` | src/Core/AnalysisJobs.cpp:830 | all regions together never show more data than the listing's budget |
| `ListingAccounting.ListingSeparates` | src/Core/AnalysisJobs.cpp:827-995 | in the whole listing two pages share a number exactly when they lie in one region with no data between them |
| `ListingAccounting.DataRegionListsStrings` | src/Core/AnalysisJobs.cpp:982-992 | outside code a region lists exactly the strings that start in it |
| `ListingAccounting.ContentStrings` | src/Core/AnalysisJobs.cpp:852-869 | in code a region lists exactly the strings that start where the map says string |
| `ListingAccounting.OrderIs` | src/Core/AnalysisJobs.cpp:976-991 | sorted rows ascend by address, and at one address strings come before the row that holds the byte |
| `ListingAccounting.ListingCovers` | src/Core/AnalysisJobs.cpp:811-995 | a listing has a header for each region, in order, and accounts for the mapped bytes of the unfolded ones and no others |
| `DecisionEffects.DecisionReachesPlan` | src/Core/AnalysisJobs.cpp:739-809 | after the overlay, a backed byte that a decision rules over is decoded exactly when the decision says code |
| `DecisionEffects.DecisionReachesListing` | src/Core/AnalysisJobs.cpp:811-995 | after the overlay, the listing of an executable region holds such a byte in exactly one row: a code page for code, otherwise data of the kind the decision names |
| `Utf8.PrintableUtf8Unit` | src/Core/AnalysisJobs.cpp:190-215 | the byte tests compute the unit length that the encoding lemmas are about |
| `Utf8.UnitIsEncoding` | src/Core/AnalysisJobs.cpp:190-215 | whatever is accepted is tab, printable ASCII or the shortest-form encoding of a scalar value from U+00A0 on |
| `Utf8.EncodingIsUnit` | src/Core/AnalysisJobs.cpp:190-215 | every such encoding is accepted, with its exact length, and its value is recovered |
| `Utf8.UnitIff` | src/Core/AnalysisJobs.cpp:190-215 | a unit starts exactly where tab, printable ASCII or the encoding of a scalar value from U+00A0 on does, and is as long |
| `Utf8.SelfSynchronising` | src/Core/AnalysisJobs.cpp:190-215 | no unit starts inside another one |
| `StringRuns.RunsExact` | src/Core/AnalysisJobs.cpp:233-262 | the run list holds exactly the maximal runs of at least four units, each once, ascending |
| `StringRuns.RunIs` | src/Core/AnalysisJobs.cpp:233-262 | the end and the length of a run are those of the only sequence of units that follow one another from its start |
| `StringScan.ScanNarrow` | src/Core/AnalysisJobs.cpp:233-262 | the greedy scanner emits the first hits, up to its limit, of all maximal narrow runs |
| `StringScan.StoreEndLongest` | src/Core/AnalysisJobs.cpp:233-262 | the stored text is the longest unit-aligned prefix of at most 512 bytes |
| `StringScan.ScanWideAscii` | src/Core/AnalysisJobs.cpp:267-300 | the same for runs of wide ASCII, with the text reduced to low bytes |
| `StringMerge.SortDedupAndCap` | src/Core/AnalysisJobs.cpp:302-317 | for any list: ascending, one hit per offset, each the first in order of its offset; every offset is kept or lies behind a full result; truncated exactly when it was already or there are more offsets than the cap |
| `StringMerge.SortedUnique` | src/Core/AnalysisJobs.cpp:302-317 | sorting and deduplicating any list keeps the first hit in order of every offset, once, ascending |
| `StringMerge.EncodingsApart` | src/Core/AnalysisJobs.cpp:367-405 | no narrow and no wide run start at the same offset |
| `StringMerge.SortedIsMerge` | src/Core/AnalysisJobs.cpp:302-317 | sorting both lists together is merging them |
| `StringMerge.EarlyStopIsFull` | src/Core/AnalysisJobs.cpp:367-405 | stopping each encoding one past the room loses nothing: the first hits and the overflow verdict are those of the full union |
| `StringMerge.StringsExactly` | src/Core/AnalysisJobs.cpp:233-300 | the union holds exactly the strings of the buffer: maximal runs of at least four units of one encoding, with the text and truncation of the first 512 bytes or code units |
| `StringMerge.ScanStringsBuffer` | src/Core/AnalysisJobs.cpp:367-405 | appends exactly the results of the first strings of the union that fit, each at the address of its first byte if that exists, by ascending address; truncated exactly when the union exceeds the room or an address does not exist |
| `AnalysisCache.RunWithinBounds` | src/Core/AnalysisCache.cpp:157-207 | after every run keys are distinct and both capacity bounds hold |
| `AnalysisCache.HoldsLatest` | src/Core/AnalysisCache.cpp:157-199 | whatever is held under a key is the latest entry that was admitted under it since the last clear |
| `AnalysisCache.PutTakesEffectIff` | src/Core/AnalysisCache.cpp:179-199 | a put takes effect exactly when the caller's capacity test admits it; otherwise nothing changes, and an older value stays readable |
| `AnalysisCache.HoldsLastPutIff` | src/Core/AnalysisCache.cpp:157-199 | after any run, what is held under a key is the last value put there exactly when that put was admitted |
| `AnalysisCache.RunRecent` | src/Core/AnalysisCache.cpp:157-199 | after every run the entries are in the order of their last use, the latest first |
| `AnalysisCache.EvictsLeastRecent` | src/Core/AnalysisCache.cpp:187-193 | what a put drops was used before everything it keeps |
| `AnalysisCache.AnalysisCache.CanStore` | src/Core/AnalysisCache.h:128-132 | the capacity test is exactly the condition under which a put is admitted |
| `AnalysisCache.LargerCacheIncludes` | src/Core/AnalysisCache.cpp:157-207 | while bytes never bind, a cache with more entries holds all a smaller one holds, in the same order |
| `AnalysisCache.LargerCacheKeepsHits` | src/Core/AnalysisCache.cpp:157-207 | so more entries never turn a hit into a miss or into another value |
| `AnalysisCache.ByteBoundBreaksInclusion` | src/Core/AnalysisCache.cpp:187-193 | for any two such capacities, a run where the byte bound binds and the larger cache misses what the smaller one hits |
| `AnalysisCache.InclusionIff` | src/Core/AnalysisCache.cpp:157-207 | for every run, more entries keep every hit with its value if and only if the smaller cache holds at most one entry or has no more bytes than entries |
| `AnalysisCache.AnalysisCache.FindErased` | src/Core/AnalysisCache.cpp:157-168 | a hit moves its node to the front and returns the value of the matching type; list, index and byte count stay consistent |
| `AnalysisCache.AnalysisCache.EraseEntry` | src/Core/AnalysisCache.cpp:170-177 | takes one node out of list, index and byte count |
| `AnalysisCache.AnalysisCache.PutErased` | src/Core/AnalysisCache.cpp:179-199 | the new contents are those of the functional store: replaced, trimmed to both bounds, put in front |
| `AnalysisCache.AnalysisCache.Clear` | src/Core/AnalysisCache.cpp:201-207 | empties list, index and byte count |
| `Digest.MultiplyInvertible` | src/Core/AnalysisCache.cpp:36-39 | multiplying by the FNV prime loses nothing modulo 2^64 |
| `Digest.FoldSeparates` | src/Core/AnalysisCache.cpp:36-39 | a folding step is a bijection on states and separates bytes |
| `Digest.OneByteChangesDigest` | src/Core/AnalysisCache.cpp:16-41 | two streams of one length that differ in one byte never share a digest |
| `Digest.FramePrefixFree` | src/Core/AnalysisCache.cpp:25-32 | length prefixes keep adjacent variable fields apart |
| `Digest.PatchStreamInjective` | src/Core/AnalysisCache.cpp:116-128 | two patch histories feed the same bytes exactly when they agree record by record, presentation groups aside |
| `Digest.OverrideStreamInjective` | src/Core/AnalysisCache.cpp:130-152 | equal override streams mean equal override sets |
| `Digest.DigestOrderedPatches` | src/Core/AnalysisCache.cpp:116-128 | the builder digests exactly that stream; an empty history is zero |
| `Digest.DigestAnalysisOverrides` | src/Core/AnalysisCache.cpp:130-152 | the builder digests exactly that stream; no overrides is zero |
| `Digest.KnownDigests` | src/Core/AnalysisCache.cpp:34-41 | the digests of the empty stream and of two short ones |
| `Digest.KnownPatchStream` | src/Core/AnalysisCache.cpp:116-128 | the bytes one patch feeds the hasher |
| `Digest.KnownOverrideStream` | src/Core/AnalysisCache.cpp:130-152 | the bytes one override of each sort feeds the hasher |
| `CodeDataOverrides.ApplyMapped` | src/Core/AnalysisJobs.cpp:102-138 | laying one more mapped decision over rebuilt spans extends the per-byte meaning by that decision |
| `BoundaryAuthority.Snapshot.Overlaps` | src/Core/AnalysisJobs.h:357-364 | subtraction of starts decides whether two spans share a byte, at address zero and at the last one too |
| `BoundaryAuthority.Capture` | src/Core/AnalysisJobs.h:333-343 | a snapshot is valid exactly when an instruction was shown with all its bytes, and then it matches them |
| `BoundaryAuthority.CaptureMatches` | src/Core/AnalysisJobs.h:323-355 | a capture matches exactly the displays of an instruction of its scope, start and length over the captured bytes |
| `BoundaryAuthority.AfterBounded` | src/Core/AnalysisJobs.h:379-460 | no operation breaks the record cap, the byte cap or the address of a record |
| `BoundaryAuthority.RunBounded` | src/Core/AnalysisJobs.h:379-460 | the bounds hold after every run |
| `BoundaryAuthority.OperationMeans` | src/Core/AnalysisJobs.h:379-460 | what every operation leaves, record by record |
| `BoundaryAuthority.InvalidationIsPrecise` | src/Core/AnalysisJobs.h:437-454 | a record is retired exactly when the span meets its instruction, or its address if it has no evidence; the others stay as they are |
| `BoundaryAuthority.InvalidationKeepsCurrent` | src/Core/AnalysisJobs.h:437-454 | after a write and its invalidation, memory still bears out every retained byte |
| `BoundaryAuthority.AcceptTwice` | src/Core/AnalysisJobs.h:388-405 | accepting again what is retained changes nothing |
| `BoundaryAuthority.RetainedWithout` | src/Core/AnalysisJobs.h:398-404 | the retained sum does not depend on the order of the records |
| `BoundaryAuthority.ListingBoundaryAuthority.AcceptDisplayedAddress` | src/Core/AnalysisJobs.h:379-387 | adds a record without evidence once; the revision advances exactly when it did |
| `BoundaryAuthority.ListingBoundaryAuthority.AcceptDisplayed` | src/Core/AnalysisJobs.h:388-405 | stores new evidence unless it is known or does not fit; the byte count stays the sum |
| `BoundaryAuthority.ListingBoundaryAuthority.EraseAt` | src/Core/AnalysisJobs.h:410-417 | removes one record and its bytes; one revision if there was one |
| `BoundaryAuthority.ListingBoundaryAuthority.EraseWhere` | src/Core/AnalysisJobs.h:422-436 | in any order of visits, removes exactly the records that meet the condition; one revision if any did |
| `BoundaryAuthority.ListingBoundaryAuthority.InvalidateOverlapping` | src/Core/AnalysisJobs.h:437-454 | in any order of visits, removes exactly the touched records; one revision if there were any |
| `BoundaryAuthority.ListingBoundaryAuthority.ClearAll` | src/Core/AnalysisJobs.h:455-460 | empties the authority; one revision if it was not empty |
| `SaveProtocol.AppContext.Edit` | src/App.cpp:507-518 | an edit of a persistent project makes it dirty and leaves writer and store alone |
| `SaveProtocol.AppContext.WorkerRuns` | src/App.cpp:1785-1786 | whenever the writer runs, clean documents stay durable |
| `SaveProtocol.AppContext.PublishCompletion` | src/App.cpp:1682-1732 | a completion saves the captured revision of its own document only; later edits stay dirty, failures stay unsaved; writers finish in the order they started; the shown save state follows |
| `SaveProtocol.AppContext.FinishProjectSave` | src/App.cpp:1676-1733 | joins an unfinished writer only when asked to, and reports what it reported |
| `SaveProtocol.AppContext.StartWriter` | src/App.cpp:1752-1798 | starts a writer exactly for a dirty persistent project, carrying exactly that project, and only when none is outstanding |
| `SaveProtocol.AppContext.BeginProjectSave` | src/App.cpp:1739-1799 | a document keeps its writer; another document's writer is joined first |
| `SaveProtocol.AppContext.SaveProject` | src/App.cpp:1801-1805 | true means the project is clean and a reload finds exactly it; no content or revision changes; it is true whenever starts and writes succeed |
| `SaveProtocol.AppContext.Flush` | src/Core/DocumentContext.cpp:221-276 | a document's own save leaves it clean and durable, or dirty |
| `SaveProtocol.AppContext.PrepareAndFlush` | src/App.cpp:1807-1817 | a transition leaves no writer behind and the outgoing project durable, or does not happen; it happens when writers can be started and none fails |
| `SaveProtocol.AppContext.Activate` | src/Core/DocumentContext.cpp:646-664 | the document left behind is clean and durable before another becomes active, which an open one does when writers can be started and none fails |
| `SaveProtocol.AppContext.Close` | src/App.cpp:464-486 | a document that closes, active or not, last or not, is found as it was by a reload and has no pending draft; one that does not close leaves the workspace as it was; it closes without a draft when its saves succeed |
| `SaveProtocol.AppContext.CloseLast` | src/App.cpp:474-486 | the last document is replaced by an empty one, always if its saves succeed and it has no draft; when it does not close it is active again and alone |
| `SaveProtocol.AppContext.Remove` | src/Core/DocumentContext.cpp:666-700 | a document is taken out exactly when its own save succeeds and it has no pending draft, and otherwise nothing but its save state moves |
| `SaveProtocol.AppContext.CreateScratch` | src/Core/DocumentContext.cpp:597-635 | an empty document joins behind the active one's save, within the limit of eight and always if that save succeeds |
| `SaveProtocol.AppContext.Open` | src/Core/DocumentContext.cpp:759-863 | a file whose content is open is activated; otherwise, within the limit of eight, it joins as what the store holds and shares no sidecar; a refused open leaves the workspace as it was, and none is refused without one of the stated reasons |
| `SaveProtocol.Completes` | src/Core/DocumentContext.cpp:194-219 | acknowledging or rejecting a ticket moves only the captured revision and keeps every clean document durable |
| `SaveProtocol.TicketIsFor` | src/Core/DocumentContext.cpp:194-219 | a ticket is for one document, one image in it and a revision that was reached; any other changes nothing |
| `SaveProtocol.Run` | src/App.cpp:1676-1817 | every run of edits, writer steps, polls, saves and transitions is a sequence of moments, each following from the one before by its step, and at each a document that shows no unsaved edits is in the store as it is |
| `SaveProtocol.Take` | src/App.cpp:1676-1817 | what one step does to documents, active document, writer and store, and when it must succeed |
| `CapturedPages.CompleteIffCaptured` | src/App.cpp:1044-1068 | without overlap a page's count is complete exactly when each byte was delivered |
| `CapturedPages.OverlapMiscounts` | src/App.cpp:1050-1057 | a concrete process and the run of the code on it: a page counts as complete although one of its bytes was never delivered |
| `CapturedPages.MarksRightIff` | src/App.cpp:1018-1071 | pages are marked right for every process with these regions, every image and every page exactly when no two usable regions share an address other than zero |
| `CapturedPages.ReadMappedImage` | src/App.cpp:1018-1071 | the reads made are determined, question by question; the image shows the last delivery of each byte; a page is marked by its 32-bit count, which for disjoint regions means that every byte was delivered; with full answers no readable byte is missed |
| `CapturedPages.QuestionsAre` | src/App.cpp:1036-1062 | each question asks for up to 1 MiB of what is left of a region, right behind the last full answer; a short or empty answer ends the region |
| `CapturedPages.MappedPeCoverageComplete` | src/App.cpp:1093-1142 | accepts exactly when headers are laid out as the PE format says and the first page, the stated headers and every listed section, up to the larger of its sizes, lie in the image on valid pages, with at most 96 sections and the table in the image |
| `CapturedPages.LaidOutAcceptance` | src/App.cpp:1093-1142 | for any headers laid out in an image acceptance is that coverage |
| `CapturedPages.WordsAre` | src/App.cpp:1096-1103 | what is read at an offset is the little-endian word that is there, if it is all there |
| `CapturedPages.AcceptedMeansCaptured` | src/App.cpp:1093-1142 | an accepted capture over disjoint regions delivered every byte that is asked for, headers and listed sections, and every other byte on a page that is asked for |
| `CapturedPages.VerdictTrustedIff` | src/App.cpp:1116-1139 | whatever the marks, acceptance puts a span, such as the section table or the PE header, on marked pages if and only if every page the span touches is touched by the first page, the stated headers or a listed section |
| `CapturedPages.AcceptedIff` | src/App.cpp:1093-1142 | marks are accepted exactly when every byte of the first page, the stated headers and the listed sections is on a valid page |
| `CapturedPages.TableUnread` | src/App.cpp:1126-1129 | a concrete process whose dump is accepted although the page of its section table was never read |
| `SyntheticClocks.SystemTimeExactIff` | src/Core/AntiDebug.cpp:294-304 | the split computation is the exact quotient, clamped, at every moment exactly when the frequency is at most 1,844,674,591,838 Hz |
| `SyntheticClocks.UnitsAgainstExact` | src/Core/AntiDebug.cpp:294-304 | at any moment the system time may lag but never leads, and it is exact while the remainder's guard holds |
| `SyntheticClocks.SaturatedRemainderLags` | src/Core/AntiDebug.cpp:300-302 | a concrete configuration above that frequency where the clock lags by almost a second |
| `SyntheticClocks.SourcesMonotone` | src/Core/AntiDebug.cpp:282-308 | QPC and the system time follow the timeline through saturation; QPC moves until it is saturated |
| `SyntheticClocks.TscInOrderIff` | src/Core/AntiDebug.cpp:310-325 | the TSC, rounding included, never runs backwards exactly when it does not at the one step from the last moment of the integer path to the first beyond it |
| `SyntheticClocks.RunInOrder` | src/Core/AntiDebug.cpp:264-332 | in every run QPC and the system time never run backwards, nor does the TSC on either side of the end of its integer path, nor across it when that one step goes forward |
| `SyntheticClocks.ShippedStepsForward` | src/Core/AntiDebug.cpp:310-325 | the shipped configuration steps forward there even where long double is a double |
| `SyntheticClocks.OddRunsBackwards` | src/Core/AntiDebug.cpp:310-325 | a concrete configuration and run on such a platform where a later RDTSC shows less |
| `LongDouble.RoundKeepsOrder` | src/Core/AntiDebug.cpp:317-325 | rounding to nearest even, to 53 or 64 significant bits, never swaps two values |
| `LongDouble.RoundError` | src/Core/AntiDebug.cpp:317-325 | rounding gives a significand of 53 or 64 bits times a power of two, within one part in 2^53 or 2^64 |
| `SyntheticClocks.SyntheticClock.NextQpc` | src/Core/AntiDebug.cpp:282-286 | the start plus the elapsed ticks, clamped to a word, at the cost of one quantum |
| `SyntheticClocks.SyntheticClock.NextSystemTime` | src/Core/AntiDebug.cpp:288-308 | at most the start plus floor(elapsed * 10^7 / frequency), at least the start plus the whole seconds, and exactly the former up to the stated frequency, clamped; a query costs one quantum |
| `SyntheticClocks.SyntheticClock.NextTsc` | src/Core/AntiDebug.cpp:310-332 | EDX:EAX is the start plus floor(elapsed * tscQuantum / qpcQuantum), clamped, on the integer path, and plus the doubly rounded quotient beyond it; a query costs one quantum |
| `SyntheticClocks.RunQueries` | src/Core/AntiDebug.cpp:264-332 | in any interleaving of queries and running time, each query is answered with its source at the elapsed time of the queries before it |
| `Base64Alphabet.DistinctMembersPermute` | src/Core/AlgoScan.cpp:224-236 | sixty-four bytes are different and all symbols of an alphabet exactly when they are a reordering of it |
| `Base64Alphabet.SymbolsAre` | src/Core/AlgoScan.cpp:145-146 | the symbols of both alphabets |
| `Base64Alphabet.MutationsDifferTwice` | src/Core/AlgoScan.cpp:236-243 | a reordering that is not the alphabet differs from it in at least two places |
| `Base64Alphabet.ClassifyWindow` | src/Core/AlgoScan.cpp:209-247 | the comparisons and set tests compute the kind of a window and its Hamming distance |
| `Base64Alphabet.KindsSpeakTrue` | src/Core/AlgoScan.cpp:209-247 | what is called exact is the alphabet; what is called mutated is a reordering of it that differs in the number of places it says |
| `Base64Alphabet.HitsAre` | src/Core/AlgoScan.cpp:204-249 | reported windows are disjoint and ascending, and every alphabet is reported, lies under a reported one, or came after the sixteenth |
| `Base64Alphabet.AlphabetReportedIff` | src/Core/AlgoScan.cpp:204-249 | an alphabet is reported as itself exactly when the limit is not used up before it and no window is reported that starts behind bytes completing its first symbols to an alphabet |
| `Base64Alphabet.ShadowIff` | src/Core/AlgoScan.cpp:224-247 | a window that reaches into an alphabet is taken for one exactly when the bytes before reorder the last symbols of an alphabet that starts like it |
| `Base64Alphabet.SlashHides` | src/Core/AlgoScan.cpp:224-247 | the last symbol in front of a standard alphabet hides it behind a mutated one a byte earlier |
| `Base64Alphabet.ScanAlphabets` | src/Core/AlgoScan.cpp:204-249 | the scan reports exactly the hits whose addresses exist, each at its address with its kind and its 64 bytes, ascending and disjoint, sixteen at most |

## Left out

- Cancellation polls, progress counters, evidence and summary texts, row text and hex formatting: theorems are about runs that are not cancelled.
- Null buffers and callbacks are `None`; shared pointers are identities; mutexes are not modelled, and the only concurrency is the project writer's.
- `ListingBoundaries.CheckpointsAgree`, `ListingDecode.PagedDecodeIsLinear` and the other statements that compare windows of different lengths assume a decoder that examines at most `m` bytes and a lookahead that covers both `m` and the width skipped at an undecodable byte.
- RootNormalization.NormalizeListingCodePagesAtRoots: needs pages whose bytes have addresses and no single run of all 2^64 bytes, which `ListingNormalization.BuiltListing` proves of every listing that is built.
- ListingRows.BuildListingRows: takes the region plan as an input (visibility, folding, sort order and mapped sizes come from PlanListingRegions), needs the classification to be the sorted, non-overlapping partition that CodeDataClassifier.h:82 makes of the type, and numbers code regions without the 32-bit wrap (the view that normalisation gets truncates them); the order of strings at one address, which std::sort leaves open, is by index.
- CodeDataOverrides.ApplyCodeDataOverrides: needs the sorted, non-overlapping partition that CodeDataClassifier.h:82 makes of the type, covering fewer than 2^64 bytes, which every map of an image does.
- XrefPlan.PlanXrefRanges: needs fewer than 2^32 sections, the range of the section number.
- ListingEstimate.LongestReadableLookback: the maximality clause needs a readability that can only be lost by asking for more, as its callers' probes have.
- ScanStringsImage, the mapping of file offsets to sections around the buffer scan, is not part of this model.
- AnalysisCache.AnalysisCache.PutErased: counters and sizes are unbounded, and the hash of a key is represented by key equality.
- BoundaryAuthority.ListingBoundaryAuthority.AcceptDisplayed: an instruction carries its address, length and mnemonic only; a decoder configuration is an opaque value.
- SaveProtocol.AppContext.SaveProject: document revisions, save sequence numbers and image generations do not wrap after 2^64 steps.
- SaveProtocol.AppContext.WorkerRuns: a refused write leaves the previous sidecar in place, as the atomic replacement does; recents, backups and warnings are not part of this model.
- SaveProtocol.AppContext.Open: a restored project is the sidecar at publication, not the one the staged load read earlier; whether a decoder can be built is an input, and running out of memory is not modelled.
- SaveProtocol.AppContext.Close: which document succeeds a closed active one is an input, and the clearing of a whole workspace at exit is not modelled.
- SyntheticClocks.SyntheticClock.NextTsc: long double is one of two formats rounded to nearest even, a double or the 64-bit extended format; other formats and rounding modes are not modelled.
- CapturedPages.MarksRightIff: speaks of fewer than 2^32 regions, and not of two that share the last address a usable region can hold without sharing the one before it.
- AnalysisCache.InclusionIff: the entry bound of the larger cache is a 64-bit size.
- Base64Alphabet.ScanAlphabets: confidence values, texts and the other rules of the algorithm scan are not part of this model.
- CapturedPages.ReadMappedImage: a read delivers a prefix of what was asked for; the breakpoint masking inside the debugger's read is not modelled.
- Function recovery, control-flow recovery, decompilation, signature tables, anti-debug policy tables and all user-interface code would add members without comparable properties.
