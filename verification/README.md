# Verified models of IvorySQL's contrib index code

This project models six pieces of PostgreSQL-derived index code that IvorySQL ships under
`contrib/`, and proves what each of them is for. `dafny verify dfyconfig.toml` checks all of it.

| component | files here | what is proved |
|---|---|---|
| bloom | `Bloom*.dfy` | the bit generator is exact; signatures never miss a matching row; build, insert, vacuum and scan, interleaved in any way, lose no tuple, never deadlock and never reach the "empty page" error |
| btree_gist, variable-length keys | `GistVar*.dfy`, `ByteStrings.dfy` | what a truncated key may hide from a search; exactly when a page split loses rows; searches of trees of any height are exact |
| amcheck, B-tree | `Nbtree*.dfy` | the exact condition for each outcome of the checks, including the runs that never end; exactly when what they accept is a tree; sorted levels, children in order, separators that lead to the right child; exactly which items an index search finds |
| amcheck, heap | `Heap*.dfy` | widening of 32-bit transaction ids; exactly when a stale cache can be trusted; update chains of a silent page; TOAST chunk accounting |
| cube | `Cube*.dfy` | unions are least covers; which searches lose nothing; lower bounds for nearest-neighbour search; Guttman's split |
| btree_gin | `GinScan.dfy` | partial-match scans equal a plain filter; exactly which start entries make them so |

`Lexicographic.dfy`, `Distinctness.dfy` and `Optional.dfy` hold what the components share.

The models take the form of the code. Loops that fill arrays or walk pages are methods with
invariants, state that is updated in place is a class, and switch-and-expression code is a function.
Concurrent bloom activity is a state machine whose steps are what one process does between two lock
operations. Each method is proved against a specification function or predicate, and the theorems
are about those.

## Results that differ from what the code promises

* `gbt_var_picksplit` cuts both halves of a split behind the longer of the two common prefixes. On
  leaf pages that is safe. On internal pages it can make a row unfindable
  (`GistVarTree.InternalSplitLosesRow`); `GistVarTree.SplitLosslessIffSafe` gives the exact
  condition, which can be read off the keys before the split.
* The B-tree checks compare a pivot with the items of its own child only. The leftmost leaf below a
  right-hand page therefore gets no lower bound, and in an accepted tree a search for a stored item
  can end at another leaf (`NbtreeCases.CousinMissed`). `NbtreeSearch.ItemFound` says exactly which
  items a search from the root finds. The separate `rootdescend` option looks for this and is not
  modelled.
* A null downlink in a minus infinity item raises no report. On the first page of a level it ends
  the whole verification there, and what is below goes unchecked (`NbtreeCases.LonelyAccepted`,
  `NbtreeCases.UnsortedAccepted`). `NbtreeAccept.AcceptedTree` shows that an accepted relation is a
  tree if and only if no live page on the levels walked has a null downlink.
* The B-tree checks can run for ever: along a level with half-dead pages whose right links form a
  circle (`NbtreeCases.CarouselEndless`), and along a level below whose pages are all excused from
  having a downlink, such as pages with unfinished splits (`NbtreeCases.SplitLoopEndless`).
  `NbtreeLevel.CheckEveryLevel` has the exact condition, and `NbtreeEndless.EndlessWhy` shows that
  these two are the only ways.
* Two heap-only tuples that follow each other raise no report (`HeapChain.SilentCycle`). Neither does
  a chain that begins with a heap-only tuple of the checking transaction
  (`HeapChain.SilentRootless`), or with one whose commit status was not found. `HeapChain.RootedIff`
  shows that these are the only ways to lack a chain root.
* A stale transaction id cache gives wrong answers once the present is 2^31 ids past the cached
  horizon, or when ids clamped to 3 fall into the range (`HeapXid.CacheTrustedIffRecent`).
* `mySrand` leaves the generator stuck at zero for two of the 2^32 seeds
  (`BloomRandom.SeedLiveIffNotStuck`), so that each column has two hash values that cannot be signed
  (`BloomSignature.StuckHashes`).
* A cube contained-by search can miss cubes of fewer dimensions than the query
  (`CubeTree.ContainedByLosesRow`); `CubeTree.ContainedByLosslessIffSpans` says when.
* For external size 0 the TOAST check would call for chunks of 2^32 bytes in all
  (`HeapToast.ChunksAddUp`).

## Model

| member | source | states |
|---|---|---|
| BloomRandom.StepExact | contrib/bloom/blutils.c:227-252 | Schrage's form of the generator stays within 32 bits at every intermediate value and equals 16807 * next modulo 2^31 - 1, never zero |
| BloomRandom.SeedLiveIffNotStuck | contrib/bloom/blutils.c:254-260 | mySrand leaves a usable state for every 32-bit seed but 0xffffffff and 0x80000001, which leave zero |
| BloomRandom.StuckForever | contrib/bloom/blutils.c:227-260 | from the zero state every later draw is -1 |
| BloomSignature.StuckHashes | contrib/bloom/blutils.c:265-285 | in every column exactly two hash values lead to a stuck seed |
| BloomRandom.DrawsInRange | contrib/bloom/blutils.c:227-252 | from a usable state all draws are between 0 and 0x7ffffffd |
| BloomSignature.Signer.Rand | contrib/bloom/blutils.c:227-252 | the static state advances by the generator's step and the result is in range |
| BloomSignature.Signer.Srand | contrib/bloom/blutils.c:254-260 | the state after seeding, usable exactly for the seeds that are not stuck |
| BloomSignature.Signer.SignValue | contrib/bloom/blutils.c:265-293 | adds exactly the bits of the value to the signature, whatever state the generator was in |
| BloomSignature.Signer.SetDrawnBits | contrib/bloom/blutils.c:287-292 | the loop adds the drawn bits and no others |
| BloomSignature.Signer.FormSignature | contrib/bloom/blutils.c:298-317 | a row's signature has the bits of its non-null columns and no others |
| BloomSignature.Signer.ScanSignature | contrib/bloom/blscan.c:88-114 | a scan's signature has the bits of its keys; a null key ends the scan at once |
| BloomSignature.SignatureTest | contrib/bloom/blscan.c:162-170 | the word-by-word loop decides containment of the bit sets |
| BloomSignature.WordwiseContains | contrib/bloom/blscan.c:162-170 | the word tests together are containment of the whole signatures |
| BloomSignature.NoFalseNegative | contrib/bloom/blscan.c:88-170 | if a row agrees with every scan key, the scan signature is part of the row's signature |
| BloomPage.EmptyPageHasRoom | contrib/bloom/bloom.h:149-152 | an empty page takes a tuple of every allowed signature length |
| BloomPage.Compact | contrib/bloom/blvacuum.c:102-127 | the in-place two-index loop leaves the kept tuples in order and counts the others |
| BloomPage.CleanPage | contrib/bloom/blvacuum.c:94-150 | a live page becomes its kept tuples, or a deleted page when none is left |
| BloomPage.KeptOrDropped | contrib/bloom/blvacuum.c:102-127 | kept and dropped tuples make up the page, with multiplicity |
| BloomPage.KeptMember | contrib/bloom/blvacuum.c:102-127 | a tuple of the page is kept or dropped by what the callback says |
| BloomPage.VacuumPageConserves | contrib/bloom/blvacuum.c:94-150 | what was on a page is what is left plus what was named dead |
| BloomBuild.BuildState.FlushCachedPage | contrib/bloom/blinsert.c:47-59 | the file then holds everything handed to the build so far, in order, on pages of which only the last may have room for more |
| BloomBuild.BuildState.AddTuple | contrib/bloom/blinsert.c:74-116 | the tuple is added after all others; the error for an empty page that has no room is dead code |
| BloomBuild.BuildState.Build | contrib/bloom/blinsert.c:121-159 | the file holds the heap's tuples in order, on pages of which only the last may have room for more |
| BloomVacuum.CleanBlock | contrib/bloom/blvacuum.c:76-155 | one page of the loop: cleaned, and offered to inserters if it has tuples and room and the list is not full |
| BloomVacuum.VacuumPages | contrib/bloom/blvacuum.c:76-155 | every data page is cleaned, the list and the counter are exact |
| BloomVacuum.BloomIndex.BulkDelete | contrib/bloom/blvacuum.c:30-180 | the whole new file, the counter, and a notFullPage list of the first 2004 offered blocks in block order |
| BloomVacuum.OfferListIsFirst | contrib/bloom/blvacuum.c:133-150 | the bounded list is a prefix of the list of all offered blocks |
| BloomVacuum.OfferedBlocksExact | contrib/bloom/blvacuum.c:133-150 | that list has exactly the offered blocks, ascending |
| BloomVacuum.BulkDeleteConserves | contrib/bloom/blvacuum.c:30-180 | the tuples before are the tuples after plus those named dead, with multiplicity |
| BloomVacuum.DeletedIffEmptied | contrib/bloom/blvacuum.c:129-150 | a page is marked deleted exactly when it had tuples and all of them were dead |
| BloomVacuum.ScanForFree | contrib/bloom/blvacuum.c:207-245 | exactly the new and deleted blocks are found free; the tuple count is exact |
| BloomVacuum.BloomIndex.VacuumCleanup | contrib/bloom/blvacuum.c:187-259 | free blocks go to the free space map and the statistics are exact |
| BloomRuns.StepKeepsInv | contrib/bloom/blinsert.c:174-342 | every step of every process keeps the invariant: page capacities, block lists, locks, and each requested tuple exactly once on a page, removed, or under way |
| BloomRuns.NewBufferKeeps | contrib/bloom/blutils.c:358-399 | taking a recycled block or extending the file keeps the invariant, with an arbitrary free space map |
| BloomRuns.VacuumBlockKeeps | contrib/bloom/blvacuum.c:76-155 | so does cleaning a block while others insert |
| BloomRuns.WriteListKeeps | contrib/bloom/blvacuum.c:165-174 | so does replacing the metapage's list by one that may be stale |
| BloomRuns.BuiltIsInit | contrib/bloom/blinsert.c:121-159 | what a build leaves is an initial state of the state machine |
| BloomRuns.RunsKeepInv | contrib/bloom/blinsert.c:174-342 | the invariant holds in every state of every interleaving |
| BloomRuns.NothingLost | contrib/bloom/blinsert.c:174-342 | when nothing is under way the pages hold exactly what was requested minus what vacuum removed |
| BloomRuns.NeverFails | contrib/bloom/blinsert.c:318-323 | "could not add new bloom tuple to empty page" cannot be reached |
| BloomRuns.MetapageFirst | contrib/bloom/blinsert.c:203-339 | in every run, a step that takes the metapage lock starts without any page lock |
| BloomRuns.NoDeadlock | contrib/bloom/blinsert.c:203-339 | as long as an operation is under way, some operation can take a step |
| BloomRuns.StaysOnPage | contrib/bloom/blvacuum.c:102-127 | a tuple that no vacuum names dead stays on its block through every step |
| BloomRuns.ScanFinds | contrib/bloom/blscan.c:143-183 | a tuple on a page when the scan began, with a containing signature and never named dead meanwhile, is in the scan's result |
| BloomRuns.ScanFindsRow | contrib/bloom/blscan.c:76-190 | the same for a row whose columns agree with the scan keys |
| GistVarKey.NodePrefixLength | contrib/btree_gist/btree_utils_var.c:122-172 | the length of the common prefix of the bounds |
| GistVarKey.VarUnion | contrib/btree_gist/btree_utils_var.c:331-367 | the span of all entries, with two bytes kept behind the common prefix |
| GistVarKey.VarPickSplit | contrib/btree_gist/btree_utils_var.c:467-557 | the first half in the order of gbt_vsrt_cmp goes left, the rest right, and no key on the left comes after one on the right; each key is the half's span cut behind the longer prefix |
| GistVarKey.Halve | contrib/btree_gist/btree_utils_var.c:504-531 | the loop distributes the offsets in order and builds both spans |
| GistVarKey.CutBoth | contrib/btree_gist/btree_utils_var.c:533-555 | both keys are cut at the same length |
| GistVarKey.TruncateHolds | contrib/btree_gist/btree_utils_var.c:213-238 | truncation keeps the common prefix, the order of the bounds and every value held |
| GistVarKey.SpanHolds | contrib/btree_gist/btree_utils_var.c:242-287 | a running union holds whatever one of its entries holds |
| GistVarKey.UnionAdmits | contrib/btree_gist/btree_utils_var.c:331-367 | after a union a value above the upper bound has the whole bound as a prefix |
| GistVarKey.SplitHolds | contrib/btree_gist/btree_utils_var.c:467-557 | the weaker invariant that a split keeps |
| GistVarTree.PrunableIffInvisible | contrib/btree_gist/btree_utils_var.c:563-622 | some query that a value satisfies rejects the key exactly when the value is outside the bounds and extends neither |
| GistVarTree.VisibleConsistent | contrib/btree_gist/btree_utils_var.c:563-622 | for a visible value the inner test accepts every strategy the value satisfies |
| GistVarTree.AdmittedVisible | contrib/btree_gist/btree_utils_var.c:331-367 | keys from a union hide nothing |
| GistVarTree.SplitLosslessIffSafe | contrib/btree_gist/btree_utils_var.c:467-557 | a split hides no value below it if and only if each entry passes a test on the keys alone |
| GistVarTree.SplitOfLeavesSafe | contrib/btree_gist/btree_utils_var.c:467-557 | splits of leaf pages always pass that test |
| GistVarTree.OriginHolds | contrib/btree_gist/btree_utils_var.c:331-557 | keys made by any history of unions and splits hold all values they were made for |
| GistVarTree.SearchExact | contrib/btree_gist/btree_utils_var.c:563-622 | a search of a tree of any height returns exactly the matching values, in order, if the last step of each key is not an unsafe split |
| GistVarTree.InternalSplitLosesRow | contrib/btree_gist/btree_utils_var.c:467-557 | a four-entry internal page, its keys in the order of gbt_vsrt_cmp, whose split into equal halves makes a stored row unfindable by equality |
| GistVarLayout.LeafRoundTrip | contrib/btree_gist/btree_utils_var.c:55-83 | a leaf key reads back as the value, and as a leaf |
| GistVarLayout.KeyRoundTrip | contrib/btree_gist/btree_utils_var.c:55-101 | a stored pair of bounds reads back as itself, and as internal even when the bounds are equal |
| NbtreeKey.InvariantsDecideOrder | contrib/amcheck/verify_nbtree.c:3107-3273 | the three invariant tests on top of _bt_compare decide the lexicographic order with missing attributes as minus infinity |
| NbtreeKey.CompareIsPrefixOrder | src/backend/access/nbtree/nbtsearch.c:689-860 | what _bt_compare itself returns: 0 for any extension of the key |
| NbtreePage.LeftmostIgnoringHalfDead | contrib/amcheck/verify_nbtree.c:1011-1063 | ends on arbitrary links; true exactly when a consistent run of half-dead pages leads to the left edge, an error exactly when it leads to a block that cannot be read |
| NbtreePage.EndedChainDistinct | contrib/amcheck/verify_nbtree.c:625-850 | a chain of right links that ends has no block twice |
| NbtreeCheck.DownlinkMissingCheck | contrib/amcheck/verify_nbtree.c:2558-2724 | accepts exactly roots, right halves of incomplete splits, and tops of interrupted multi-level deletions |
| NbtreeCheck.AllAbove | contrib/amcheck/verify_nbtree.c:2487-2540 | true exactly if every real item of the child is above the pivot |
| NbtreeCheck.Checker.VisitChild | contrib/amcheck/verify_nbtree.c:2205-2360 | accepts exactly the pages that are on the right level, at the left edge where the walk starts, linked soundly, excused where they lack a downlink, and within the right pivot |
| NbtreeCheck.Checker.ChildHighkeyCheck | contrib/amcheck/verify_nbtree.c:2146-2378 | accepts exactly if the right links lead, over pages that pass, to the downlink or, where it is null or none is left, to the right edge; never ends exactly if every page on the way passes and neither is reached |
| NbtreeCheck.LongLegDiverges | contrib/amcheck/verify_nbtree.c:2187-2378 | a walk that passes more blocks than the relation has goes on for ever |
| NbtreeCheck.Checker.RightScankey | contrib/amcheck/verify_nbtree.c:1866-2067 | the key is the first real item of the first page to the right that is live or rightmost; never ends exactly if there is none and all pages on the way can be read |
| NbtreeCheck.Checker.ItemCheck | contrib/amcheck/verify_nbtree.c:1567-1754 | accepts exactly the items that respect the high key, the next item and the next page worth a look |
| NbtreeCheck.Checker.ChildCheck | contrib/amcheck/verify_nbtree.c:2393-2543 | accepts if and only if the child is not deleted and the pivot is a strict lower bound of its real items |
| NbtreeCheck.Checker.OneItem | contrib/amcheck/verify_nbtree.c:1334-1831 | the three outcomes of one round of the item loop, in the order of the checks, with the null downlink that raises no report |
| NbtreeCheck.Checker.TargetPageCheck | contrib/amcheck/verify_nbtree.c:1240-1846 | accepts exactly if every item passes with the child walk where the items before left it, and the walk ends at the right edge after the rightmost page; never ends exactly if some walk on the way does not |
| NbtreeLevel.VisitLive | contrib/amcheck/verify_nbtree.c:660-790 | the left edge, root, left link and level conditions of a live page, and the verdict on its items, exactly |
| NbtreeLevel.LongLevelDiverges | contrib/amcheck/verify_nbtree.c:650-850 | a level walk over twice as many blocks as the relation has goes on for ever |
| NbtreeLevel.CheckLevel | contrib/amcheck/verify_nbtree.c:625-850 | accepts exactly if every page up to the right edge passes; never ends exactly if some page is checked for ever or the pages go on for ever; where the next level starts |
| NbtreeLevel.CheckEveryLevel | contrib/amcheck/verify_nbtree.c:521-540 | accepts exactly if each level is accepted down to the leaves or to a null first downlink; never ends exactly if one of them does not |
| NbtreeFacts.PageFacts | contrib/amcheck/verify_nbtree.c:1240-1846 | on an accepted page the items are in order, each child is on the level below, its high key is the next pivot and its items are above its own |
| NbtreeFacts.LevelFacts | contrib/amcheck/verify_nbtree.c:625-850 | an accepted level is a chain to the right edge of checked pages, left links agreeing |
| NbtreeFacts.ChildLevelFacts | contrib/amcheck/verify_nbtree.c:2146-2378 | without null downlinks, one walk from edge to edge of the level below reaches all downlinks of an accepted level in their order |
| NbtreeFacts.WalkNeverReturns | contrib/amcheck/verify_nbtree.c:790-850 | as long as it meets no half-dead page, the level walk never comes to a block twice, whatever the links are |
| NbtreeTree.LevelSorted | contrib/amcheck/verify_nbtree.c:1603-1754 | the items of all live pages of an accepted level together are strictly increasing, each within its page's high key, with half-dead pages in between or not |
| NbtreeTree.ChildLevelExact | contrib/amcheck/verify_nbtree.c:2146-2378 | the child level has no block twice, and a page on it that no downlink names is half-dead or deleted, a root, right of an unfinished split, or the top of an unfinished deletion |
| NbtreeTree.DownlinksInOrder | contrib/amcheck/verify_nbtree.c:2146-2378 | each downlink has one place on the child level, and places grow with the downlinks |
| NbtreeTree.ChildLevelIsDownlinks | contrib/amcheck/verify_nbtree.c:2146-2378 | with nothing under way on the levels, a level is exactly the list of downlinks of the level above |
| NbtreeTree.SeparatorLeadsToChild | contrib/amcheck/verify_nbtree.c:2393-2543 | for every item of a child, the last pivot strictly below the item is the one that leads to that child |
| NbtreeTree.TakenIffAboveAncestors | contrib/amcheck/verify_nbtree.c:2393-2543 | a search takes all slots of a leaf's path for an item on it if and only if the item is above the path's pivots, the last excepted |
| NbtreeTree.EveryBlockHasPath | contrib/amcheck/verify_nbtree.c:521-540 | every block of a settled accepted tree is reached by downlinks from the top level |
| NbtreeAccept.AcceptedTree | contrib/amcheck/verify_nbtree.c:521-540 | an accepted relation is a whole tree with all checks established if and only if no live page on the levels walked has a null downlink; otherwise no choice of levels makes it one |
| NbtreeAccept.SettledAccepted | contrib/amcheck/verify_nbtree.c:380-605 | a sound tree on whose levels nothing is under way raises no report |
| NbtreeAccept.SettledExact | contrib/amcheck/verify_nbtree.c:380-605 | where nothing is under way on the levels, being accepted without null downlinks is exactly being a sound tree |
| NbtreeSearch.BinSrch | src/backend/access/nbtree/nbtsearch.c:343-440 | on a page with ascending pivots the binary search gives the last pivot below the key |
| NbtreeSearch.CheckedAscends | contrib/amcheck/verify_nbtree.c:1603-1640 | the pivots of an accepted page ascend, so that the binary search is exact on it |
| NbtreeSearch.SearchAlwaysEnds | src/backend/access/nbtree/nbtsearch.c:99-202 | in a settled accepted tree a search for any key ends at a leaf |
| NbtreeSearch.PathUnique | contrib/amcheck/verify_nbtree.c:2146-2378 | every block of a settled accepted tree has one path only |
| NbtreeSearch.ItemFound | src/backend/access/nbtree/nbtsearch.c:99-322 | a search from the root, moving right where a high key says so, ends at the leaf of a stored item if and only if the item is above the high keys of the top pages it passes and above the path's pivots, the last excepted |
| NbtreeEndless.EndlessLevel | contrib/amcheck/verify_nbtree.c:625-850 | a level is checked for ever only if its right links form a circle with a half-dead or deleted page on it, or those of the level below do, over nothing but excused pages |
| NbtreeEndless.EndlessWhy | contrib/amcheck/verify_nbtree.c:521-540 | the same for the whole relation, of a level that the walk comes to |
| NbtreeEndless.CircleReturns | contrib/amcheck/verify_nbtree.c:2187-2378 | on such a circle a block comes twice within as many steps as there are blocks |
| NbtreeEndless.QuietEnds | contrib/amcheck/verify_nbtree.c:521-540 | where no page on the levels walked is half-dead, deleted, being split, a root below the top or the top of a deletion, the checks end |
| NbtreeCases.CousinMissed | contrib/amcheck/verify_nbtree.c:2393-2543 | an accepted, sound, settled tree of five blocks in which a search for a stored item ends at another leaf |
| NbtreeCases.LonelyAccepted | contrib/amcheck/verify_nbtree.c:2198-2203 | a lone root with a null downlink is accepted, and no levels make it a tree |
| NbtreeCases.UnsortedAccepted | contrib/amcheck/verify_nbtree.c:2198-2203 | a root with a null first downlink above a leaf with its items out of order is accepted |
| NbtreeCases.CarouselEndless | contrib/amcheck/verify_nbtree.c:650-850 | a relation of three pages, two of them half-dead, whose check never ends |
| NbtreeCases.SplitLoopEndless | contrib/amcheck/verify_nbtree.c:2187-2378 | a relation of five pages, none of them half-dead or deleted, whose check never ends |
| HeapXid.WidenExact | contrib/amcheck/verify_heapam.c:1982-2019 | widening gives back a full id if and only if it is in the half-open window of 2^32 ids around the next one |
| HeapXid.WindowUnique | contrib/amcheck/verify_heapam.c:1997-2014 | each 32-bit id names exactly one full id of the window |
| HeapXid.ClampedOnlyInEpochZero | contrib/amcheck/verify_heapam.c:2008-2012 | the clamp applies exactly to ids whose place in the window precedes all normal ids, in epoch 0 only |
| HeapXid.OrderKept | contrib/amcheck/verify_heapam.c:1982-2019 | within 2^31 the order of full ids is the signed 32-bit order of their low halves |
| HeapXid.Context.UpdateCachedRange | contrib/amcheck/verify_heapam.c:2024-2036 | the cache is the current range, the oldest id widened relative to the new next id |
| HeapXid.Context.GetXidStatus | contrib/amcheck/verify_heapam.c:2116-2184 | the verdict, which range it rests on, when the cache is refreshed, and the commit status with its own cache; ids 1 and 2 are committed |
| HeapXid.Context.constructor | contrib/amcheck/verify_heapam.c:434-441 | the cached range is the current one; the 32-bit oldest id is relfrozenxid where that is normal, apart from the range |
| HeapXid.RefreshKeeps | contrib/amcheck/verify_heapam.c:2139-2151 | a refresh leaves the full id of an id that is still valid unchanged |
| HeapXid.CacheTrustedIffRecent | contrib/amcheck/verify_heapam.c:2139-2151 | the stale range answers right for all ids around the present if and only if the present is less than 2^31 past the cached horizon and clamped ids stay out of the range |
| HeapXid.VerdictTrue | contrib/amcheck/verify_heapam.c:2116-2160 | with such a cache the verdict says where the true full id lies, case by case |
| HeapChain.FirstPass | contrib/amcheck/verify_heapam.c:504-633 | the successor, validity and status arrays, and silence exactly for sane line pointers |
| HeapChain.SecondPass | contrib/amcheck/verify_heapam.c:639-804 | the predecessor array, and silence exactly if no two links meet and all linked pairs agree |
| HeapChain.CheckPair | contrib/amcheck/verify_heapam.c:741-803 | silence exactly if the flags and commit statuses of a linked pair agree |
| HeapChain.ThirdPass | contrib/amcheck/verify_heapam.c:813-836 | silence exactly if every live heap-only tuple has a predecessor |
| HeapChain.CheckPage | contrib/amcheck/verify_heapam.c:504-836 | the three passes report nothing if and only if the page is sound |
| HeapChain.RedirectsLeadToHeapOnly | contrib/amcheck/verify_heapam.c:666-700 | on a silent page each redirect leads to a heap-only tuple that nothing else leads to |
| HeapChain.HeapOnlyHasPredecessor | contrib/amcheck/verify_heapam.c:702-836 | a live heap-only tuple has exactly one predecessor: a redirect, or a version HOT-updated by the transaction that inserted it |
| HeapChain.WalkBack | contrib/amcheck/verify_heapam.c:639-836 | from every live heap-only tuple of a silent page the predecessors lead to a chain root, to an undecided tuple, or round a cycle through the tuple |
| HeapChain.RootedIff | contrib/amcheck/verify_heapam.c:639-836 | such a tuple has a chain root if and only if it is on no cycle and its chain does not begin with an undecided tuple |
| HeapChain.SilentCycle | contrib/amcheck/verify_heapam.c:639-836 | a page with a cycle that raises no report |
| HeapChain.SilentRootless | contrib/amcheck/verify_heapam.c:813-836 | a page with neither root nor cycle that raises no report |
| HeapToast.CheckToastTuple | contrib/amcheck/verify_heapam.c:1559-1643 | silent exactly for the expected sequence number with the expected size |
| HeapToast.CheckToastedAttribute | contrib/amcheck/verify_heapam.c:1865-1914 | silent if and only if the chunks are exactly numbers 0 to last with the expected sizes |
| HeapToast.ChunksAddUp | contrib/amcheck/verify_heapam.c:1559-1643 | the sizes of a silent value's chunks add up to its external size, to 2^32 for size 0 |
| CubeBox.CubeUnion | contrib/cube/cube.c:752-810 | the loops compute the union with missing dimensions as zero, and the point mark |
| CubeBox.UnionLeastCover | contrib/cube/cube.c:752-810 | a box covers both arguments if and only if it covers the union |
| CubeBox.CubeInter | contrib/cube/cube.c:827-900 | the loops compute the intersection, turned over where the boxes do not meet |
| CubeBox.InterBounds | contrib/cube/cube.c:827-900 | per dimension, the common range or the gap between the boxes |
| CubeBox.CubeSize | contrib/cube/cube.c:914-937 | the volume |
| CubeBox.CubeContains | contrib/cube/cube.c:1130-1166 | containment in the dimensions of the second box, zero where the first has none |
| CubeBox.CubeOverlap | contrib/cube/cube.c:1200-1236 | overlap in every dimension with missing ones as zero |
| CubeBox.CubeCmp | contrib/cube/cube.c:943-1021 | zero exactly for the same bounds and dimension; otherwise the sign of the first difference, lower bounds before upper bounds and common dimensions before others |
| CubeTree.LeafConsistent | contrib/cube/cube.c:683-710 | the leaf test is the operator |
| CubeTree.InternalConsistent | contrib/cube/cube.c:712-737 | the inner test per strategy |
| CubeTree.GiSTUnion | contrib/cube/cube.c:429-454 | the union of all entries in order; nothing for a single entry |
| CubeTree.UnionOfAllCovers | contrib/cube/cube.c:429-454 | a box covers every entry of a page if and only if it covers their union |
| CubeTree.NeverRejected | contrib/cube/cube.c:683-737 | no covering box is rejected for overlap, same and contains, across dimensions |
| CubeTree.ContainedByLosslessIffSpans | contrib/cube/cube.c:712-737 | for contained-by no covering box is rejected if and only if the query reaches zero in its extra dimensions |
| CubeTree.SearchExact | contrib/cube/cube.c:394-421 | searches of bounding-box trees of any height find exactly the rows that satisfy the operator |
| CubeTree.ContainedByLosesRow | contrib/cube/cube.c:712-737 | a one-dimensional row that a two-dimensional contained-by query misses |
| CubeDistance.Distance1DIsGap | contrib/cube/cube.c:1511-1524 | the one-dimensional distance is the gap between the projections, never negative |
| CubeDistance.CubeDistance | contrib/cube/cube.c:1261-1404 | the loops compute sum, greatest or sum of squares of the gaps over all dimensions of either box |
| CubeDistance.BoxIsNoFarther | contrib/cube/cube.c:1261-1404 | no metric is larger on a covering box than on the cube it covers, across dimensions |
| CubeDistance.ZeroIffOverlap | contrib/cube/cube.c:1261-1404 | every metric is zero exactly for overlapping boxes |
| CubeDistance.CoordIsLowerBound | contrib/cube/cube.c:1413-1479 | the sort key of an inner entry for the coordinate order, either direction, never exceeds that of an entry below it |
| CubeDistance.LeafCoord | contrib/cube/cube.c:1413-1479 | on leaves the key is the numbered bound itself, negated for negative numbers |
| CubeSplit.PickSeeds | contrib/cube/cube.c:548-586 | the seeds are the first pair of greatest waste among all pairs but those with the last entry; entries 1 and 2 if there is none |
| CubeSplit.PickSplit | contrib/cube/cube.c:515-660 | every offset is on exactly one of two ascending non-empty lists, placed greedily by least growth, and each box is the least cover of its list |
| CubeSplit.BoxIsLeastCover | contrib/cube/cube.c:588-650 | a box covers a side's running box if and only if it covers everything on the side |
| GinScan.ExactIffSafeEntry | contrib/btree_gin/btree_gin.c:147-231 | for every operator and datum, a partial-match scan from an entry equals the filter on every index of the type if and only if the entry passes a test on the three numbers |
| GinScan.ScanIsFilter | contrib/btree_gin/btree_gin.c:64-397 | for every known strategy, with same-type or cross-type datum, the scan yields exactly the keys that satisfy the operator; unknown strategies are refused |
| GinScan.WalkIsSelect | contrib/btree_gin/btree_gin.c:147-231 | on ordered keys the match, skip and stop verdicts pick what the filter picks |

## Left out

- BloomSignature.Signer.SignValue: leaves out the hash values that put the generator into its stuck state, because the C code then shifts by a negative count, which has no defined meaning.
- BloomSignature.Signer.FormSignature: leaves out the same hash values.
- BloomSignature.Signer.ScanSignature: leaves out the same hash values.
- BloomVacuum.VacuumPages: works on the list of pages as a value and stores it at the end; concurrent changes are the subject of the state machine.
- GistVarKey.NodePrefixLength: covers one-byte characters and no multibyte encodings or collations.
- GistVarKey.VarPickSplit: takes the order that the sort finds as a parameter, because the sort is a library call.
- NbtreeCheck.Checker.ChildHighkeyCheck: the final call on a rightmost page ends with a report at a live page with a usable high key, where the C code would look for a pivot at item 0.
- NbtreeSearch.ItemFound: covers searches for a whole key including its heap TID, by readers; the pages do not change meanwhile.
- CubeSplit.PickSplit: requires two entries or more, as GiST guarantees.
- CubeDistance.CoordKey: does not model the overflow of negating -2^31.
- CubeDistance.CubeDistance: states the Euclidean distance before the square root, and coordinates are real numbers without rounding, infinities or NaN.
- HeapChain.FirstPass: takes what the tuple check found about xmin as input.
- HeapXid.Context.GetXidStatus: takes the shared transaction state and the commit log as parameters.
- WAL, buffer pins, memory contexts and the interrupt checks of all components.
- amcheck without the parent-level lock, posting lists, uniqueness, heap fingerprinting and rootdescend.
- verify_heapam's tuple header, visibility, attribute and multixact checks.
- cube input and output, penalty, and cube_cmp as a total order over boxes of different dimension.
- btree_gin operator classes other than the three integer ones.
- verify_gin, hstore, ltree, pg_trgm, intarray and the other contrib modules, which are not part of this model.
