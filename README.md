# Up transaction tagger: a verified model of the state layer

The tagger is a browser client for the Up banking API. It lists an
account's transactions so the user can tag them in bulk. This project models
in Dafny the data logic behind that list and proves what the logic promises.
Network calls, persistence and rendering are left out.

- **Cover matching** (`findCovers`). One pass over the transaction list pairs
  each categorizable purchase with the oldest earlier "Cover from" /
  "Forward to" transfer that is still waiting. A cover is queued under
  `ceil(value / 100)` and a purchase looks under `ceil(-value / 100)`. The
  purchase receives the cover (`coverTransaction`) and the cover receives the
  purchase's id (`originalTransactionId`).
  - `CoverMatching.FindCovers` is the loop as written. It fills an output
    array and keeps a `map<int, seq<nat>>` of FIFO queues of output indices.
    It is proved equal to the specification `Run`, a left fold of `Step`.
  - `CoverInvariant` states the invariant of the pass and proves that every
    step keeps it.
  - `CoverProperties` derives what callers rely on from that invariant.
  - `CoverExamples` works through the order, sign and rounding conventions.
- **Pagination** (`Pagination`).
  - The first page of an account's store.
  - "Load more": a no-op without a next link; otherwise it appends the page
    and re-runs matching over everything.
  - The refresh loop: it requests pages of 100, lowering its counter by 100
    per request, until the counter is no longer positive.
  - Each API response is a parameter.
- **Categories** (`Categories`).
  - `makeCategoryTree` is modelled as two passes over a `map` plus the map's
    key order. Roots come in first-occurrence order and the last value wins
    for a repeated id. Children keep input order. Orphans are dropped.
  - The lookup searches the second level only. The name query falls back to
    "Uncategorized".
- **Accounts** (`Accounts`). The name lookup: null for no id, "UNKNOWN" for an
  unknown id, otherwise the display name of the first match.
- **Filters** (`TransactionFilters`).
  - The default filter maps: everything enabled.
  - The empty default search text.
  - Two live versions of the filtered list:
    - `src/data/filters.ts`: the "uncategorized" and "none" keys act as
      catch-alls, and a case-insensitive search applies.
    - `src/global_state.tsx`: strict keys and no search.
- **Selection** (`Selection`).
  - The selected-id set with its batch add and remove.
  - `handleSelect`, which uses the module-level `lastSelectPos` for
    shift-click ranges.
  - The rows the list renders, and when the load-more control shows.
  - The list of selected transactions across all accounts.
- **Filter panel** (`FilterControls`). The single and group toggles, the
  group checkbox state, and the category and cover-account item lists.

`src/data/transactions.ts` and `src/api_client.tsx` each define `findCovers`,
`loadMoreTransactions` and the store default. The copies agree in everything
the model covers: they match the fetched page and keep its `links.next`. They
differ in how they fetch. The `src/data/` copy goes through `fetchGet`, which
throws on a non-OK status, while the `src/api_client.tsx` copy calls `fetch`
with no status check. The type of `nextUrl` also differs (optional versus
nullable). The category tree builder and the account name query are also
duplicated between the `src/data/` files and `src/api_client.tsx`, and so are
the default filters between `src/data/filters.ts` and `src/global_state.tsx`.
One member models each pair of copies.

## Model

| member | source | states |
|---|---|---|
| CoverMatching.FindCovers | src/data/transactions.ts:5-54 | The loop's output is the output of the specification pass `Matched`. The in-place back-reference on an already emitted cover and the queue pop and delete are proved against `Step`. |
| CoverMatching.Step | src/data/transactions.ts:11-50 | One iteration keeps every bucket non-empty (an emptied bucket is deleted), keeps every queued index inside the output, and emits exactly one record. |
| CoverMatching.Run | src/data/transactions.ts:8-51 | After any prefix of the input the queues are well formed and there is one output record per input record. |
| CoverInvariant.RunInv | src/data/transactions.ts:8-53 | The pass invariant holds after every prefix. Each bucket queues exactly the still-unpaired open covers of that amount, in increasing index order. Pairs join a purchase to an earlier same-bucket cover through two inverse maps, and the oldest waiting cover is taken first. Each output record equals its input up to the two links, which are exactly the pairing's. |
| CoverProperties.MatchedKeepsEveryTransaction | src/data/transactions.ts:8-53 | The output has the input's length, and each index holds the same record (same id and attributes) apart from its links: nothing is dropped, duplicated or reordered. |
| CoverProperties.MatchedLeavesOthersAlone | src/data/transactions.ts:11-50 | Records that already carry a link pass through unchanged. So do records that are neither covers nor categorizable. |
| CoverProperties.PairingSound | src/data/transactions.ts:26-41 | Every pair joins an open categorizable purchase to an earlier open cover with the same rounded key. The purchase embeds the back-linked cover and the cover holds the purchase's id. |
| CoverProperties.LinksComeFromPairing | src/data/transactions.ts:37-42 | On a record that came in unlinked, a cover link appears iff the record is a paired purchase, and a back-reference appears iff it is a paired cover. |
| CoverProperties.PairingInjective | src/data/transactions.ts:31-35 | No cover is matched to two purchases. |
| CoverProperties.PairingFifo | src/data/transactions.ts:20-35 | Within one bucket, a later purchase is paired with a later cover: covers are consumed in the order they were queued. |
| CoverProperties.PairingOldestFirst | src/data/transactions.ts:27-35 | A purchase takes the oldest same-bucket cover still waiting. Every earlier same-bucket cover has already been paired with an earlier purchase. |
| CoverProperties.NeverBothLinks | src/data/transactions.ts:11-41 | A record that came in unlinked never ends up with both links. |
| CoverProperties.RerunPairsNothing | src/data/transactions.ts:11-13 | Running the pass again on its own output makes no new pair. |
| CoverProperties.MatchedIdempotent | src/data/transactions.ts:11-13 | Running the pass twice gives the same list as running it once. |
| CoverProperties.MatchedExtend | src/data/transactions.ts:96-103 | Re-matching a longer list keeps every pair made on the prefix. A prefix record either stays as it was or, if it was a waiting cover, only gains a back-reference. |
| CoverExamples.CoverThenPurchasePair | src/data/transactions.ts:18-41 | A +50.00 cover followed by a -49.99 purchase pair up, because both round up to bucket 50. |
| CoverExamples.PurchaseThenCoverStayApart | src/data/transactions.ts:26-46 | A purchase listed before its cover stays unpaired. |
| CoverExamples.TwoPurchasesStayApart | src/data/transactions.ts:27-29 | Two purchases of the same amount never pair with each other. |
| CoverExamples.PairAcrossPages | src/data/transactions.ts:96-103 | A cover on the first page pairs with a purchase that arrives with the next page. |
| Pagination.FirstPage | src/api_client.tsx:153-172 | The single-page refresh (also the store default) matches the page on its own. The result keeps the page's records in order and takes the page's next link. A further run of matching changes nothing in it. |
| Pagination.LoadMore | src/data/transactions.ts:80-104 | Without a truthy next link the store is returned unchanged. Otherwise the new records follow the old ones, the next link is the page's, and a settled store stays settled. |
| Pagination.LoadMoreKeepsLoadedRecords | src/api_client.tsx:129-151 | Loading more leaves every loaded record as it was. The only exception is a waiting cover that gains a back-reference to a purchase on the new page. |
| Pagination.Refresh | src/data/transactions.ts:106-130 | It makes ceil(n/100) requests for n > 0 and none for n <= 0. In the second case the result is an empty list with the first-page URL as next link. The URLs are chained from each response, and the list is matching over every fetched page in order. The result is settled: matching it again changes nothing. |
| Categories.RootIds | src/data/categories.ts:19-23 | Root ids are listed once each, and every root of the input is listed. |
| Categories.LastRoot | src/data/categories.ts:21 | For a listed root id, the entry holds a root of the input with that id: the last one. |
| Categories.LastRootIsLast | src/data/categories.ts:19-23 | The entry kept for a root id is the last root with that id in the input: no root with the same id follows it, as a later `set` under the same key overwrites an earlier one. |
| Categories.CategoryTree | src/data/categories.ts:16-32 | One entry per distinct root id, each a root of the input. An entry's children are exactly the inputs whose parent is that root, in input order. |
| Categories.MakeCategoryTree | src/data/categories.ts:16-32 | The two-pass build over a map and its key order produces `CategoryTree`. |
| Categories.CollectRoots | src/data/categories.ts:18-23 | The first pass: keys in first-occurrence order, the last value for a repeated id, and no children yet. |
| Categories.AttachChildren | src/data/categories.ts:24-30 | The second pass: each entry gets the inputs whose parent it is. A category whose parent has no entry is dropped. |
| Categories.RootIdsFirstOccurrenceOrder | src/data/categories.ts:19-31 | Tree entries are ordered by the first position at which their id occurs as a root. |
| Categories.ChildrenCount | src/data/categories.ts:25-30 | The tree holds exactly the categories whose parent id is a root id, so there are never more children than non-root inputs. |
| Categories.FindChild | src/data/categories.ts:52-56 | The inner search: the first child with the id, or none when no child has it. |
| Categories.LookupCategory | src/data/categories.ts:45-60 | Returns a second-level category with the id, or null exactly when no child of any root has the id. Roots themselves are not searched. |
| Categories.LookupIsFirst | src/data/categories.ts:51-58 | The nested search returns the first child with the id in scan order of the flattened second level. |
| Categories.LookupFindsOnlyChildren | src/data/categories.ts:50-58 | On a built tree the lookup only returns an input category whose parent is a root. |
| Categories.CategoryName | src/api_client.tsx:217-232 | The name of the found category. "Uncategorized" when the id is missing or nothing is found. |
| Accounts.FindAccount | src/data/accounts.ts:26 | `find`: the first account with the id, or none when no account has it. |
| Accounts.AccountName | src/data/accounts.ts:17-32 | Null iff the id is null. "UNKNOWN" for an id no account has. Otherwise the display name of the first account with the id. |
| TransactionFilters.ChildIds | src/data/filters.ts:23-27 | Lists the id of every second-level category, and nothing else. |
| TransactionFilters.DefaultFilters | src/data/filters.ts:12-37 | The loops produce the category map {uncategorized, child ids} and the cover map {none, account ids}, all set to true. |
| TransactionFilters.EnableChildren | src/data/filters.ts:24-26 | The inner loop adds every child id of one root, set to true, to the map built so far. |
| TransactionFilters.EnableAccounts | src/data/filters.ts:30-32 | The account loop: starting from {none}, the result is the default cover map. |
| TransactionFilters.DefaultsEnableEverything | src/global_state.tsx:20-45 | In the defaults, both catch-alls, every child category and every account are enabled, and no entry is false. |
| TransactionFilters.DefaultsOmitRootIds | src/data/filters.ts:22-27 | A root id is not a key of the default category map, unless a non-root category or the catch-all shares it. |
| TransactionFilters.FilterLoose | src/data/filters.ts:44-81 | The loose list is the order-preserving subsequence of the account list whose members pass the category, cover and search tests. With both catch-alls enabled, only the search test is left. |
| TransactionFilters.EmptySearchKeepsDescribed | src/data/filters.ts:66-74 | With the default search '' a transaction passes iff its description or raw text is non-empty. |
| TransactionFilters.FilterStrict | src/global_state.tsx:47-77 | The two chained filters equal one order-preserving filter by: its own category (or "uncategorized" when it has none) and its cover's account (or "none" when there is none). |
| TransactionFilters.StrictWithinLoose | src/global_state.tsx:56-73 | What the strict list keeps passes the loose category and cover tests. |
| TransactionFilters.CatchAllOnlyRescuesLoose | src/data/filters.ts:55-57 | With only "uncategorized" enabled, a categorised transaction passes the loose filter and fails the strict one. |
| Selection.IndexOf | src/Transactions.tsx:96 | `findIndex`: the first position with the id, or -1 when no row has it. |
| Selection.RangeIds | src/Transactions.tsx:98-103 | The ids are exactly those of the categorizable rows in the inclusive range, with positions past the end cut off. |
| Selection.VisibleRows | src/Transactions.tsx:134-135 | The rendered rows are the filtered rows without a back-reference, in order. |
| Selection.ShowLoadMore | src/Transactions.tsx:144-149 | The control shows iff some response to "load more" would change the store. |
| Selection.SelectionState.constructor | src/data/selectedTransactions.ts:5-8 | The selection starts empty and `lastSelectPos` starts at 0. |
| Selection.SelectionState.Dispatch | src/Transactions.tsx:81-91 | Adds or removes every id of the batch. Ids outside the batch keep their membership, and the position is kept. |
| Selection.SelectionState.HandleSelect | src/Transactions.tsx:93-115 | Shift-click applies the checkbox state to the range between the last position and this one, in either direction, and keeps the position. A plain click changes only the clicked id and records its position in the filtered list, hidden rows included. |
| Selection.SelectedTransactions | src/data/selectedTransactions.ts:10-27 | Every account's list concatenated in account order, then filtered to the selected ids. Every result is selected and comes from some list, and every selected row of any list is in it. |
| FilterControls.HandleChange | src/Filters.tsx:28-36 | Sets the item's entry in the list's map to the checkbox state. Every other entry and the other map are unchanged. |
| FilterControls.HandleCheck | src/Filters.tsx:60-72 | Sets every item of the group to the state. The group's own id, other entries and the other map are unchanged. The group then reads checked iff the state was true (for a non-empty group). |
| FilterControls.UncheckingItemUnchecksGroup | src/Filters.tsx:59 | Unticking any item of a group unticks the group box. |
| FilterControls.CheckingLastItemChecksGroup | src/Filters.tsx:59 | Ticking the only disabled item of a group ticks the group box. |
| FilterControls.CategoryItems | src/Filters.tsx:144-161 | One group per root in tree order, with one item per child, followed by the "Uncategorized" item. |
| FilterControls.CoverAccountItems | src/Filters.tsx:163-173 | One item per account in order, followed by "Not Covered" for the "none" key. |
| FilterControls.DefaultsTickEveryBox | src/Filters.tsx:144-173 | Under the default filters every group box and every item box of both lists is ticked. |

## Left out

- HTTP requests, the API token in local storage, the JSON wrapper and its
  errors (including the `FetchError` thrown by `fetchGet` in
  `src/data/fetch.ts` on a non-OK status), and tagging (`tagTransactions`). These are I/O. Responses are
  parameters (`Page`, the lists of categories and accounts).
- Recoil caching and invalidation, `waitForAll`, Suspense, React rendering and
  the async orchestration of refreshes. These are library behaviour and
  concurrency. The per-account filtered lists and the selection set are
  passed in as values.
- Object identity.
  - A transaction is a value. The cover a purchase embeds is the cover's
    value after its back-reference was set. This matches the source, because
    a cover is mutated once, before any purchase refers to it.
  - Because records are values, the source's rule that input objects are
    never mutated holds trivially and is not stated separately.
- `toLowerCase` is modelled on ASCII letters only. Full Unicode case mapping
  is not modelled.
- Category, account and transaction records carry only the attributes the
  logic reads (tags, amounts as text, dates and the rest are dropped).
- A filter key that names a built-in object property (such as
  `constructor`) reads as truthy in JavaScript. The model treats every
  absent key as disabled.
- The load-more handler in `src/Transactions.tsx` is not modelled: it imports
  a misspelled state and calls `loadMoreTransactions` with the wrong argument
  shape. The `loadingMore` flag is UI state and is not modelled either. Only
  the condition for showing the control is.
- Pagination.Refresh: responses are a sequence given in request order, and
  enough of them must exist. The source keeps requesting after the last page
  has no next link. The model records that request's URL as absent and still
  consumes a response for it.
- Selection.SelectionState.HandleSelect: requires the clicked id to be in the
  filtered list. The source attaches the handler only to rows of that list, so
  the -1 position (and `slice` with a negative start) never occurs.
- The item lists' rendering (expand and collapse, labels as markup) is UI and
  is not modelled. The lists themselves are.
- Common.Id: ids are taken to be non-empty strings. The API issues non-empty
  ids, so the JavaScript truthiness tests on ids coincide with presence
  (`Some?`). An empty id, which JavaScript would read as false, is not
  modelled.
