/** The paginated transaction store of one account: the first page, "load
    more", and the refresh that reloads as many transactions as are shown.
    Each response of the banking API is a parameter: the data it carries and
    the link to the next page, absent on the last page. */
module Pagination {
  import opened Common
  import opened Transactions
  import opened CoverMatching
  import opened CoverProperties

  /** One response of the transaction list endpoint. */
  datatype Page = Page(data: seq<Transaction>, next: Option<string>)

  /** The store: the matched transactions loaded so far, and where the next
      page is. */
  datatype PaginatedTransactions = PaginatedTransactions(list: seq<Transaction>, nextUrl: Option<string>)

  /** A list every entry point of the store produces: a further run of cover
      matching changes nothing in it. */
  predicate Settled(p: PaginatedTransactions) {
    Matched(p.list) == p.list
  }

  /** The state after a single page is fetched: the default of the store and
      the one-page refresh both match the page on its own. */
  function FirstPage(page: Page): (r: PaginatedTransactions)
    ensures Settled(r)
    ensures r.nextUrl == page.next
    ensures |r.list| == |page.data|
    ensures forall k | 0 <= k < |page.data| :: Unlinked(r.list[k]) == Unlinked(page.data[k])
  {
    MatchedKeepsEveryTransaction(page.data);
    MatchedIdempotent(page.data);
    PaginatedTransactions(Matched(page.data), page.next)
  }

  /** `loadMoreTransactions`: with no next page the store is returned as it
      is; otherwise `page` is the response to `GET nextUrl`, appended to the
      list before cover matching is re-run over the whole. */
  function LoadMore(p: PaginatedTransactions, page: Page): (r: PaginatedTransactions)
    ensures !Truthy(p.nextUrl) ==> r == p
    ensures Truthy(p.nextUrl) ==> r.nextUrl == page.next
    ensures Truthy(p.nextUrl) ==> |r.list| == |p.list| + |page.data|
    ensures Truthy(p.nextUrl) ==> forall k | 0 <= k < |page.data| ::
              Unlinked(r.list[|p.list| + k]) == Unlinked(page.data[k])
    ensures Settled(p) ==> Settled(r)
  {
    if !Truthy(p.nextUrl) then p
    else
      var all := p.list + page.data;
      MatchedKeepsEveryTransaction(all);
      MatchedIdempotent(all);
      assert forall k | 0 <= k < |page.data| :: all[|p.list| + k] == page.data[k];
      PaginatedTransactions(Matched(all), page.next)
  }

  /** Loading more never unpicks the pairs already on screen: every record
      already loaded stays as it was, except that a cover still waiting for
      its purchase may now point back at one from the new page. */
  lemma LoadMoreKeepsLoadedRecords(p: PaginatedTransactions, page: Page)
    requires Settled(p)
    ensures forall k | 0 <= k < |p.list| ::
              || LoadMore(p, page).list[k] == p.list[k]
              || (&& IsOpenCover(p.list[k])
                  && LoadMore(p, page).list[k].originalTransactionId.Some?
                  && LoadMore(p, page).list[k] == p.list[k].(originalTransactionId := LoadMore(p, page).list[k].originalTransactionId))
  {
    if Truthy(p.nextUrl) {
      MatchedExtend(p.list, page.data);
      MatchedKeepsEveryTransaction(p.list);
      forall k | 0 <= k < |p.list|
        ensures IsOpenCover(p.list[k]) <==> IsOpenCover(Matched(p.list)[k])
      {
      }
    }
  }

  /** The concatenated data of a sequence of responses. */
  function AllData(pages: seq<Page>): seq<Transaction> {
    if pages == [] then [] else AllData(pages[..|pages| - 1]) + pages[|pages| - 1].data
  }

  /** `refreshTransactions(accountId, transactionsToLoad)`: fetches pages of
      100, following each response's `next` link, until the counter that
      starts at `transactionsToLoad` and drops by 100 per request is no longer
      positive, then matches covers over everything fetched. `responses[k]` is
      the answer to the k-th request; `requested` lists the URLs requested, a
      missing link being requested as it is. */
  method Refresh(firstUrl: string, transactionsToLoad: int, responses: seq<Page>)
    returns (r: PaginatedTransactions, requested: seq<Option<string>>)
    requires 100 * |responses| >= transactionsToLoad
    ensures 100 * |requested| >= transactionsToLoad
    ensures |requested| == 0 || 100 * (|requested| - 1) < transactionsToLoad
    ensures transactionsToLoad > 0 ==> |requested| == CeilDiv100(transactionsToLoad)
    ensures transactionsToLoad <= 0 ==> requested == [] && r == PaginatedTransactions([], Some(firstUrl))
    ensures |requested| <= |responses|
    ensures forall k | 0 <= k < |requested| ::
              requested[k] == if k == 0 then Some(firstUrl) else responses[k - 1].next
    ensures r.list == Matched(AllData(responses[..|requested|]))
    ensures Settled(r)
    ensures r.nextUrl == if |requested| == 0 then Some(firstUrl) else responses[|requested| - 1].next
  {
    var allTransactions: seq<Transaction> := [];
    var nextUrl := Some(firstUrl);
    var toLoad := transactionsToLoad;
    requested := [];
    while toLoad > 0
      invariant toLoad == transactionsToLoad - 100 * |requested|
      invariant |requested| == 0 || 100 * (|requested| - 1) < transactionsToLoad
      invariant |requested| <= |responses|
      invariant forall k | 0 <= k < |requested| ::
                  requested[k] == if k == 0 then Some(firstUrl) else responses[k - 1].next
      invariant allTransactions == AllData(responses[..|requested|])
      invariant nextUrl == if |requested| == 0 then Some(firstUrl) else responses[|requested| - 1].next
    {
      toLoad := toLoad - 100;
      var json := responses[|requested|];
      assert responses[..|requested| + 1][..|requested|] == responses[..|requested|];
      requested := requested + [nextUrl];
      allTransactions := allTransactions + json.data;
      nextUrl := json.next;
    }
    var withCoverMetadata := FindCovers(allTransactions);
    r := PaginatedTransactions(withCoverMetadata, nextUrl);
    MatchedIdempotent(allTransactions);
  }
}
