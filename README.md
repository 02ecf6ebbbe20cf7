# Cardano metadata explorer: verified model of the search core

The explorer is a browser page that searches recent Cardano transactions
for their metadata through a Blockfrost-style indexer. This project models
its search logic (`script.js`) in Dafny:

- **metadata extraction**: flattening a metadata item's JSON into the
  newline-joined list of its string leaves, and the de-duplicated dump of
  every non-blank trimmed line (`metadata.dfy`, with ASCII trimming,
  splitting and lowering in `text.dfy`);
- **the indexer**: an immutable snapshot of finite maps standing for the
  endpoints; a missing key is a failed request (`chain.dfy`);
- **block location by time**: the bounded binary search with its 300-second
  tolerance, and the resolution of a date range to blocks (`locator.dfy`,
  `daterange.dfy`);
- **transaction harvesting**: the recency walk along `previous_block` links
  and the height walk between two dates (`harvester.dfy`);
- **the filter pipeline**: metadata collection, the label stage, the
  pattern stage and the wallet stage (`filters.dfy`, over the generic
  filter/map pass of `filtermap.dfy`);
- **live refresh**: merging a new run into the shown results (`live.dfy`);
- **label search**: the label page state and "Load more" (`labels.dfy`).

The loops of the source are methods, each proved equal to a recursive
specification function, and the properties are lemmas about those
functions. Dates are UNIX seconds given as integers; an absent end date is
`None`. The regular expression is an abstract predicate on text.

## Model

| member | source | states |
|---|---|---|
| Text.TrimSpec | script.js:74 | `trim()` yields the empty string exactly when the text is all whitespace; otherwise it neither starts nor ends with whitespace, and it holds only characters of the text |
| Text.TrimStartSpec | script.js:74 | dropping leading whitespace leaves a suffix of the text that is empty or starts with a non-whitespace character, and everything dropped is whitespace |
| Text.TrimEndSpec | script.js:74 | dropping trailing whitespace leaves a prefix that is empty or ends with a non-whitespace character, and everything dropped is whitespace |
| Text.Split | script.js:73 | `split("\n")` always yields at least one piece |
| Text.SplitPiecesLackSeparator | script.js:73 | no piece of a split holds the separator |
| Text.JoinSplit | script.js:73 | joining the pieces of a split with the separator gives the text back |
| Text.SplitJoin | script.js:63 | splitting a join of separator-free pieces gives the pieces back |
| Text.SplitPrefix | script.js:73 | splitting a separator-free prefix followed by a text glues the prefix onto the first piece |
| Text.ToLower | script.js:476-491 | ASCII `toLowerCase` keeps the length, leaves no capital letter, and keeps every character that is not a capital letter in place |
| Text.ToLowerIdempotent | script.js:476-491 | lowering leaves a text unchanged exactly when it holds no capital letter, so lowering the already lowered wallet and field again changes nothing |
| Metadata.Walk | script.js:48-57 | the walk appends exactly the string leaves of the node, depth first in array and key order, to what was collected; null, numbers and booleans add nothing |
| Metadata.ExtractTextFromMetadataItem | script.js:41-65 | the label is passed through unchanged and the text is the string leaves joined by newlines |
| Metadata.ArrayLeavesConcat | script.js:52-53 | the leaves of two runs of array elements are the leaves of each, one after the other |
| Metadata.MemberLeavesConcat | script.js:54-55 | the leaves of two runs of object members are the leaves of each, one after the other |
| Metadata.LeavesAreStringNodes | script.js:48-57 | a string is collected exactly when some string node below the root equals it |
| Metadata.ArrayLeavesAreStringNodes | script.js:52-53 | a string is collected from an array exactly when one of its elements has such a string node |
| Metadata.MemberLeavesAreStringNodes | script.js:54-55 | a string is collected from an object exactly when one of its member values has such a string node |
| Metadata.ExtractedTextSplitsBack | script.js:59-64 | when no leaf holds a newline, splitting the extracted text on newlines gives back the leaves |
| Metadata.ExtractExample | script.js:41-65 | label "721" with `{"ok": ["a", {"b": "c"}]}` is extracted as "a\nc" |
| Metadata.ConcatMapMembers | script.js:70-78 | a line is produced exactly when some transaction or record produces it |
| Metadata.FirstIndex | script.js:81 | the first position of a line in a list holds that line, and no earlier one does |
| Metadata.AddTextLines | script.js:72-77 | adding the lines of one text appends its non-empty trimmed lines to what was seen, and the set stays the de-duplication of everything added |
| Metadata.AddRecordsLines | script.js:71-78 | the same for every record of a transaction, in record order |
| Metadata.BuildUniqueMetadataDump | script.js:67-82 | the dump is the first-seen-order de-duplication of every non-empty trimmed line of every record text, joined by newlines |
| Metadata.DedupMembers | script.js:68-81 | a line is in the de-duplicated list exactly when it is in the original |
| Metadata.DedupDistinct | script.js:68-81 | the de-duplicated list repeats no line |
| Metadata.FirstIndexInPrefix | script.js:81 | a line's first position is unchanged by appending more lines |
| Metadata.DedupFirstSeenOrder | script.js:81 | the de-duplicated lines are ordered by where each first appears |
| Metadata.NonEmptyTrimmedMembers | script.js:73-75 | a line is kept exactly when it is non-empty and is the trim of some line of the text |
| Metadata.UniqueDumpContents | script.js:67-82 | the dump lines are exactly the non-empty trimmed lines of the record texts, each once, in first-seen order |
| Metadata.DumpLinesHaveNoNewline | script.js:73-75 | no dump line holds a newline |
| Metadata.UniqueDumpSplitsBack | script.js:81 | splitting a non-empty dump on newlines gives back its lines |
| Chain.Indexer.LabelPage | script.js:364-366 | the label endpoint answers when the label is known, the count lies in 1..100 and the page is at least 1, with at most `count` rows |
| Chain.LabelPageRows | script.js:364-366 | row `k` of page `p` is row `(p - 1) * count + k` of the label's transactions |
| Chain.Diff | script.js:168 | `Math.abs(a - b)` is the distance between the two times |
| Locator.SearchFollowsTrace | script.js:160-192 | the loop state machine ends with the best of the probes so far followed by the remaining probes |
| Locator.SearchIsLocate | script.js:151-195 | running the loop from the start gives the best of all probes |
| Locator.TraceBounds | script.js:158-161 | at most 20 heights are probed, all within the search range |
| Locator.TraceNarrows | script.js:181-188 | after a block newer than the target every later probe is lower, after an older one every later probe is higher |
| Locator.TraceHeightsDistinct | script.js:160-188 | no height is probed twice |
| Locator.TraceHitIsLast | script.js:176-178 | only the last probe can be within 300 seconds of the target |
| Locator.BestIsEarliestClosest | script.js:168-173 | the result is absent exactly when nothing was probed; otherwise it is the earliest probe among those closest to the target |
| Locator.TraceHitIsReturned | script.js:176-178 | a probe within 300 seconds is the block returned |
| Locator.SearchFindsNearbyBlock | script.js:158-188 | on a chain whose times grow with height and whose heights all answer, a range shorter than `2^n` that holds a block within 300 seconds ends in such a block within `n` probes |
| Locator.LocateFindsNearbyBlock | script.js:151-195 | the same for the 20 iterations: a range of fewer than `2^20` heights holding a block within 300 seconds yields one |
| Locator.LocateWithinRange | script.js:151-195 | when heights answer with their own block, a found block lies within the range |
| Locator.TraceProbesFetched | script.js:164 | every probe is the block the indexer gives for its height |
| Locator.FindBlockByTimestamp | script.js:151-195 | the loop returns the earliest closest of the probes, returning at once on one within 300 seconds and stopping on a failed fetch |
| DateRange.BlockRangeForDates | script.js:198-231 | fails exactly when the latest block cannot be fetched; no end date leaves the end absent; an end date gives the block located for it between genesis and the latest block; no start date gives the latest block as start; a start date gives its located block or the height-0 placeholder |
| DateRange.RangeWithinChain | script.js:198-231 | when heights answer with their own block, the start height is at most the latest height (0 for the placeholder start); a located start block and any end block lie between genesis and the latest block |
| Harvester.Truncate | script.js:276 | `slice(0, limit)` gives a prefix of length `min(limit, n)` |
| Harvester.WalkHeights | script.js:252-274 | the loop returns the height walk, and the heights it requests are exactly those of `Visited`: from the end downward one at a time, never below the start, and only the last can hold a block older than the start date |
| Harvester.VisitedDescends | script.js:252-265 | the heights the walk requests are the end height and then each lower one in turn, none below the start height, and only the last can hold a block older than the start date |
| Harvester.VisitedCoversRange | script.js:252-265 | when the walk answers with fewer than `limit` items and its last requested height does not hold a block older than the start date, it requested every height from the end down to the start |
| Harvester.HeightWalkExtends | script.js:252-274 | the walk only appends, so items keep visit order |
| Harvester.HeightWalkItems | script.js:252-274 | every added item is a transaction of some height between the start and the end, tagged with that block's time, and the time lies within the dates |
| Harvester.HeightWalkNewestFirst | script.js:252-274 | on a chain whose times grow with height, items come newest block first |
| Harvester.HeightWalkComplete | script.js:252-274 | unless `limit` items came back, when no block is older than the start date every transaction of every height in range whose block is not after the end date is returned |
| Harvester.FetchLatestTxHashesSimple | script.js:280-297 | the loop returns the chain walk from the latest block, cut to `limit` |
| Harvester.ChainWalkIsPrefix | script.js:284-296 | where the chain can be read back to its first block, the chain walk cut to `limit` equals the first `limit` items of what was collected followed by every transaction of the chain |
| Harvester.RecentTxsArePrefixOfChain | script.js:280-297 | the recency walk returns the first `min(limit, total)` transactions of the per-block lists along `previous_block` from the latest block, each tagged with its block's time |
| Harvester.EndDateOnlyAsWrittenMissesBlocks | script.js:244-252 | with only an end date the start block is the latest block (script.js:207), so a transaction of the end block that lies within the dates is not returned |
| Harvester.EndDateOnlyCorrectedFindsBlock | script.js:233-277 | with the corrected floor the same query returns that transaction |
| Harvester.DatedTxsWithoutStartReachGenesis | script.js:233-277 | without a start date the corrected walk returns, unless `limit` items came back, every transaction from genesis to the end block whose block is not after the end date |
| Harvester.FetchLatestTxHashes | script.js:233-277 | without dates it is the recency walk; with dates it is the height walk from the end block (or the latest block) down to the start block (genesis without a start date), at most `limit` items, each within the dates |
| FilterMaps.FilterMapOrigins | script.js:433-441 | a map-and-filter pass gives, for exactly the kept elements in increasing position, what the step makes of them |
| FilterMaps.FilterMapMembers | script.js:433-441 | a value comes out exactly when some element gives it |
| FilterMaps.FilterMapThen | script.js:459-503 | two passes in a row are one pass with the composed step |
| FilterMaps.FilterMapKeepAll | script.js:462-475 | a stage that is switched off gives the list back |
| Filters.ProcessTxSpec | script.js:421-456 | a transaction yields an entry exactly when its metadata was fetched and some extracted item has non-blank text and (with a label filter) that label; the entry has the transaction's hash and block time and exactly those records |
| Filters.CollectMetadata | script.js:417-456 | the loop keeps, in order, the entry of every transaction that yields one; a failed metadata fetch skips the transaction |
| Filters.NarrowTxSpec | script.js:464-468 | narrowing keeps a transaction exactly when one of its records matches, with the same hash and block time and exactly the matching records |
| Filters.RegexStageIdempotent | script.js:462-472 | applying the same pattern a second time changes nothing |
| Filters.NarrowTwice | script.js:464-468 | a narrowed transaction narrows to itself |
| Filters.MatchingTwice | script.js:467 | filtering records twice by the same pattern is filtering once |
| Filters.WalletStage | script.js:475-503 | the loop keeps, in order, the transactions whose inputs or outputs have an address or payment credential containing the lower-cased wallet after lowering; a failed UTXO fetch drops the transaction; an empty wallet keeps everything |
| Filters.FilterResults | script.js:417-503 | the three stages one after the other are one pass over the harvested transactions with the composed step |
| Filters.PipelineStepSpec | script.js:417-503 | a transaction comes out exactly when its metadata was fetched, some extracted item passes the blank, label and pattern stages, and (with a wallet) its UTXOs mention the wallet; it keeps its hash and block time, and its records are exactly the passing items |
| Filters.PipelineKeepsOrder | script.js:417-503 | the results are a subsequence of the harvested transactions: each comes from one of them by hash, in increasing order, and none that passes is missing |
| Live.MergeLiveSpec | script.js:505-519 | nothing is added exactly when every incoming hash is already shown; otherwise the shown results follow unchanged after the new entries, which are exactly the incoming entries with unseen hashes |
| Live.MergeLiveIdempotent | script.js:505-519 | merging the same run again into the merged results adds nothing |
| Live.MergeLiveKeepsHashesDistinct | script.js:505-519 | when neither list repeats a hash, the merged results do not |
| Labels.ClampLimit | script.js:318 | the limit is clamped into 1..50 and kept when already there |
| Labels.LabelMatchesSpec | script.js:370-380 | one result per row in order, with the row's hash, no block time and as its only record the extraction of the row's JSON under the searched label; a row with no text still gives a record |
| Labels.LabelMatchesExample | script.js:370-380 | label "5" with the row `{tx_hash: "abc", json_metadata: "hi"}` gives one result with hash "abc" and the record ("5", "hi") |
| Labels.FirstTwoPagesAreContiguous | script.js:364-366 | two consecutive pages of the same size hold the first `2 * count` rows (or all of them) |
| Labels.LabelPager.constructor | script.js:571-572 | the state starts with no label and page 1 |
| Labels.LabelPager.Search | script.js:353-401 | a new label resets the page to 1; the page is asked for with the clamped limit; an answer moves the page on by one, a failure leaves it |
| Labels.LabelPager.LoadMoreAsWritten | script.js:588-616 | without a label nothing happens; otherwise the current page is asked for with the unclamped limit, appended to the shown results, and the page moves on |
| Labels.LabelPager.LoadMore | script.js:588-616 | the same with the limit clamped as the search clamps it |
| Labels.SearchThenLoadMoreAsWritten | script.js:588-597 | a search with a limit above 50 then "Load more" shows rows 0-49 and `limit .. 2 * limit - 1`, skipping the rows between |
| Labels.SearchThenLoadMore | script.js:588-616 | with the corrected "Load more" the search and the next page show the first `2 * ClampLimit(limit)` rows, none skipped |

## Findings

| source | as written | input that shows it | evidently intended | confidence | as-written member | corrected member |
|---|---|---|---|---|---|---|
| script.js:244-252 | with only an end date, `startBlock` stays the latest block (script.js:207), so the height walk runs from the end block down to the latest block's height and returns nothing unless the end block is the latest | chain of blocks 1 (time 500, tx `t1`) and 2 (latest, time 1000, tx `t2`), no start date, end time 600: `t1` is within the dates but the result is empty | without a start date the walk goes down towards genesis | high (not executed) | Harvester.EndDateOnlyAsWrittenMissesBlocks | Harvester.DatedTxsWithoutStartReachGenesis |
| script.js:588-597 | "Load more" asks for page `labelPage` with the unclamped limit, while the search asked for page 1 with the limit clamped to 50 (script.js:318) | limit 100 and a label with 200 transactions: the search shows rows 0-49, "Load more" asks for page 2 of 100 rows and shows rows 100-199; rows 50-99 are never shown | "Load more" uses the same clamped page size | high (not executed) | Labels.SearchThenLoadMoreAsWritten | Labels.SearchThenLoadMore |

`Harvester.FetchLatestTxHashes` and `Labels.LabelPager.LoadMore` use the
corrected behaviour. `Harvester.DatedTxsAsWritten` and
`Labels.LabelPager.LoadMoreAsWritten` keep the behaviour as written.

## Left out

- Fetching (`fetchJson`, URLs, the proxy, the API key): every endpoint is a lookup in an immutable snapshot (`Chain.Indexer`). A missing key stands for a request that threw (a non-OK HTTP status). Both reads of `/blocks/latest` in one dated query (script.js:203, script.js:247) therefore see the same block.
- Answers of the wrong shape (a non-array transaction list, a block without `time`) are not modelled; every answer has the modelled shape. In particular the height walk skips a height whose `/blocks/{h}/txs` answer is not an array (script.js:258); the model has no such answer, and a height the indexer does not answer ends the walk with an error, as a thrown request does.
- JSON objects: `Metadata.Json`'s `JObject` holds its members already in `Object.values` enumeration order (integer-like keys first, ascending, then the other keys in insertion order), not in the order of the JSON text; that reordering is not modelled.
- Date parsing (`Date.parse`, `T00:00:00Z`, `T23:59:59.999Z`, NaN): the dates arrive as UNIX seconds. A start date at or before 1970 counts as no start date, as in the source's `fromTime > 0` test.
- The regular expression engine: a pattern is an abstract predicate on text, and `None` stands both for an empty pattern and for one that does not compile (the source skips the stage in both cases).
- Unicode: `toLowerCase` and `includes` are ASCII per character, and `trim` uses a fixed whitespace set.
- JSON numbers are integers; floating-point numbers are not modelled (extraction ignores numbers anyway).
- `parseInt` of the limit field: the limit is an integer; a non-numeric field (NaN) is not modelled.
- The UI: rendering, statistics, status text, the help modal, buttons, keyboard shortcuts, export, saved searches, the live timer and the busy flag.
- The label-mode live comparison of dump strings (script.js:382-390), which reads a text area.
- The label stage of the pipeline (script.js:438-441) is modelled, but in the source it only runs with an empty label filter, because a label search returns at script.js:401; with an empty filter it keeps everything.
- In label mode the pattern and wallet filters are not applied, as in the source; `Labels.LabelPager.Search` models that branch alone. Every label search moves the page on, so a live refresh of a label search shows the next page.
- Harvester.FetchLatestTxHashesSimple, and Harvester.FetchLatestTxHashes for a query without dates, require that following `previous_block` always leads to a lower height (`Chain.Indexer.ChainLinked`). On a chain whose links form a cycle the source stops once the cycle's blocks have supplied `limit` hashes (script.js:284), and loops forever when the blocks on the cycle hold no transactions; neither case is modelled.
- Harvester.WalkHeights: an unresolved start date gives the placeholder start height 0, so the walk may request height 0. That request is modelled like any other lookup.
- Harvester.HeightWalkNewestFirst and Locator.SearchFindsNearbyBlock assume block times that grow with height, which the indexer's data is expected to satisfy but the source never checks.
- Live.MergeLiveKeepsHashesDistinct needs the new run itself to repeat no hash; the source does not de-duplicate the new run.
- Chain.Indexer.LabelPage models the paging of the label endpoint (1-based pages of `count` rows, at most 100) rather than a specific service's behaviour beyond it.
- Locator.LocateFindsNearbyBlock: the 20 probes are only guaranteed to reach a block within 300 seconds when the range holds fewer than `2^20` heights. The source searches from height 1 to the latest block (script.js:204-205, used at script.js:212 and script.js:221), which on a long chain is far more, so there the search may return only the closest block it probed.
