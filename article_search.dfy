/**
 * The archive search: the feed is asked for pages 1, 2, 3, ... with the
 * resolved term until enough summaries are collected, a page fails, or a
 * page holds no items.
 */
module ArticleSearch {
  import opened Wrappers
  import SearchTerm

  /** The fixed page size sent as the perPage parameter. */
  const PER_PAGE: int := 10
  const STATUS_OK: int := 200
  const UNKNOWN_DATE: string := "Unknown Date"
  /** The default of the max_results argument. */
  const DEFAULT_MAX_RESULTS: int := 5

  /** One <item> of the feed; its <pubDate> may be missing. */
  datatype FeedItem = FeedItem(title: string, link: string, pubDate: Option<string>)

  /** The summary returned for one item. */
  datatype Summary = Summary(title: string, url: string, date: string)

  /** The varying query parameters of one feed request: perPage, oldal (the
   *  page number) and term. */
  datatype FeedRequest = FeedRequest(perPage: int, page: int, term: string)

  /** The answer to a request: its HTTP status and the <item> elements of
   *  its parsed body. */
  datatype Response = Response(status: int, items: seq<FeedItem>)

  /** The remote feed, as the answer it gives to each request. */
  type Feed = FeedRequest -> Response

  function Request(term: string, page: int): FeedRequest {
    FeedRequest(PER_PAGE, page, term)
  }

  /** Whether the loop goes on after this page: status 200 and at least one item. */
  predicate Continues(r: Response) {
    r.status == STATUS_OK && r.items != []
  }

  /** The items a response contributes; a failed response contributes none. */
  function Delivered(r: Response): (items: seq<FeedItem>)
    ensures r.status != STATUS_OK ==> items == []
    ensures !Continues(r) ==> items == []
    ensures Continues(r) ==> items == r.items && items != []
  {
    if r.status == STATUS_OK then r.items else []
  }

  /** The loop goes on after a page exactly when the page delivers items. */
  lemma ContinuesIffDelivers(r: Response)
    ensures Continues(r) <==> Delivered(r) != []
  {
  }

  /** The items of pages 1..n, in feed order. */
  function PageItems(feed: Feed, term: string, n: nat): seq<FeedItem> {
    if n == 0 then []
    else PageItems(feed, term, n - 1) + Delivered(feed(Request(term, n)))
  }

  /** The summary of one item: its title and link, and its pubDate or
   *  "Unknown Date" when it has none. */
  function Summarize(item: FeedItem): (s: Summary)
    ensures s.title == item.title && s.url == item.link
    ensures item.pubDate.Some? ==> s.date == item.pubDate.value
    ensures item.pubDate.None? ==> s.date == UNKNOWN_DATE
  {
    Summary(item.title, item.link, item.pubDate.GetOr(UNKNOWN_DATE))
  }

  /** What a search for `term` with cap `maxResults` returns (`articles`)
   *  and asks the feed for (`requests`). */
  ghost predicate SearchOutcome(feed: Feed, term: string, maxResults: int,
                                articles: seq<Summary>, requests: seq<FeedRequest>)
  {
    var n := |requests|;
    var items := PageItems(feed, term, n);
    // pages 1, 2, ..., n are requested, in that order, with the term
    && (forall i :: 0 <= i < n ==> requests[i] == Request(term, i + 1))
    // every page before the last one requested delivered items
    && (forall p :: 1 <= p < n ==> Continues(feed(Request(term, p))))
    // page p + 1 is requested only while the first p pages hold fewer than maxResults items
    && (forall p :: 0 <= p < n ==> |PageItems(feed, term, p)| < maxResults)
    // the summaries are those of the first |articles| items, in feed order
    && |articles| <= |items|
    && (forall i :: 0 <= i < |articles| ==> articles[i] == Summarize(items[i]))
    // and the search stopped for one of its three reasons
    && (|| (n == 0 && maxResults <= 0)
        || (n > 0 && Continues(feed(Request(term, n))) && |articles| == maxResults)
        || (n > 0 && !Continues(feed(Request(term, n))) && |articles| == |items|))
  }

  /** `search_articles`: resolves the term, then runs the pagination loop. */
  method SearchArticles(query: SearchTerm.Query := SearchTerm.NO_QUERY,
                        maxResults: int := DEFAULT_MAX_RESULTS, feed: Feed)
    returns (articles: seq<Summary>, requests: seq<FeedRequest>)
    ensures SearchOutcome(feed, SearchTerm.ResolveTerm(query), maxResults, articles, requests)
    ensures maxResults <= 0 ==> articles == [] && requests == []
    ensures |articles| <= maxResults || articles == []
  {
    var term := SearchTerm.ResolveTerm(query);
    articles, requests := Paginate(term, maxResults, feed);
  }

  /** The pagination loop of `search_articles` for an already resolved term. */
  method Paginate(term: string, maxResults: int, feed: Feed)
    returns (articles: seq<Summary>, requests: seq<FeedRequest>)
    ensures SearchOutcome(feed, term, maxResults, articles, requests)
    ensures maxResults <= 0 ==> articles == [] && requests == []
    ensures |articles| <= maxResults || articles == []
  {
    articles := [];
    requests := [];
    var page := 1;
    while |articles| < maxResults
      invariant page >= 1 && |requests| == page - 1
      invariant forall i :: 0 <= i < |requests| ==> requests[i] == Request(term, i + 1)
      invariant forall p :: 1 <= p < page ==> Continues(feed(Request(term, p)))
      invariant forall p :: 0 <= p < page - 1 ==> |PageItems(feed, term, p)| < maxResults
      invariant |articles| <= |PageItems(feed, term, page - 1)|
      invariant forall i :: 0 <= i < |articles| ==> articles[i] == Summarize(PageItems(feed, term, page - 1)[i])
      invariant |articles| < |PageItems(feed, term, page - 1)| ==> |articles| == maxResults
      invariant page > 1 ==> |articles| <= maxResults
      decreases maxResults - |articles|
    {
      var request := Request(term, page);
      requests := requests + [request];
      var response := feed(request);
      ghost var before := PageItems(feed, term, page - 1);
      assert |articles| == |before|;
      if response.status != STATUS_OK {
        assert PageItems(feed, term, page) == before;
        break;
      }
      var items := response.items;
      if items == [] {
        assert PageItems(feed, term, page) == before;
        break;
      }
      assert PageItems(feed, term, page) == before + items;
      var i := 0;
      while i < |items|
        invariant 0 <= i <= |items|
        invariant |articles| == |before| + i
        invariant |articles| <= maxResults
        invariant forall k :: 0 <= k < |articles| ==> articles[k] == Summarize((before + items)[k])
      {
        if |articles| >= maxResults {
          break;
        }
        articles := articles + [Summarize(items[i])];
        i := i + 1;
      }
      page := page + 1;
    }
  }

  /** The items of fewer pages are a prefix of the items of more pages. */
  lemma {:induction false} PageItemsPrefix(feed: Feed, term: string, m: nat, n: nat)
    requires m <= n
    ensures |PageItems(feed, term, m)| <= |PageItems(feed, term, n)|
    ensures PageItems(feed, term, n)[..|PageItems(feed, term, m)|] == PageItems(feed, term, m)
  {
    if m < n {
      PageItemsPrefix(feed, term, m, n - 1);
      var small := PageItems(feed, term, m);
      var mid := PageItems(feed, term, n - 1);
      assert PageItems(feed, term, n) == mid + Delivered(feed(Request(term, n)));
      assert PageItems(feed, term, n)[..|small|] == mid[..|small|];
    }
  }

  /** The number of pages requested is fixed by the feed and the cap. */
  lemma PagesRequestedUnique(feed: Feed, term: string, maxResults: int,
                             a1: seq<Summary>, r1: seq<FeedRequest>,
                             a2: seq<Summary>, r2: seq<FeedRequest>)
    requires SearchOutcome(feed, term, maxResults, a1, r1)
    requires SearchOutcome(feed, term, maxResults, a2, r2)
    ensures |r1| == |r2|
  {
  }

  /** A search has only one possible outcome. */
  lemma OutcomeUnique(feed: Feed, term: string, maxResults: int,
                      a1: seq<Summary>, r1: seq<FeedRequest>,
                      a2: seq<Summary>, r2: seq<FeedRequest>)
    requires SearchOutcome(feed, term, maxResults, a1, r1)
    requires SearchOutcome(feed, term, maxResults, a2, r2)
    ensures a1 == a2 && r1 == r2
  {
    PagesRequestedUnique(feed, term, maxResults, a1, r1, a2, r2);
    assert |a1| == |a2|;
  }

  /** When the first m pages all deliver items and together hold at least
   *  maxResults of them, exactly maxResults summaries come out: those of the
   *  first maxResults items. */
  lemma ExactlyMaxResults(feed: Feed, term: string, maxResults: int, m: nat,
                          articles: seq<Summary>, requests: seq<FeedRequest>)
    requires 0 <= maxResults <= |PageItems(feed, term, m)|
    requires forall p :: 1 <= p <= m ==> Continues(feed(Request(term, p)))
    requires SearchOutcome(feed, term, maxResults, articles, requests)
    ensures |requests| <= m
    ensures |articles| == maxResults
    ensures forall i :: 0 <= i < maxResults ==> articles[i] == Summarize(PageItems(feed, term, m)[i])
  {
    var n := |requests|;
    PageItemsPrefix(feed, term, n, m);
    var all := PageItems(feed, term, m);
    var got := PageItems(feed, term, n);
    forall i | 0 <= i < maxResults
      ensures articles[i] == Summarize(all[i])
    {
      assert all[..|got|][i] == got[i];
    }
  }

  /** The search stops at the first page that fails or is empty and returns
   *  the summaries of everything before it, when that is under the cap. */
  lemma StopsAtFirstFailure(feed: Feed, term: string, maxResults: int, k: nat,
                            articles: seq<Summary>, requests: seq<FeedRequest>)
    requires k >= 1
    requires forall p :: 1 <= p < k ==> Continues(feed(Request(term, p)))
    requires !Continues(feed(Request(term, k)))
    requires |PageItems(feed, term, k - 1)| < maxResults
    requires SearchOutcome(feed, term, maxResults, articles, requests)
    ensures |requests| == k
    ensures |articles| == |PageItems(feed, term, k - 1)|
    ensures forall i :: 0 <= i < |articles| ==> articles[i] == Summarize(PageItems(feed, term, k - 1)[i])
  {
    var n := |requests|;
    if n < k {
      PageItemsPrefix(feed, term, n, k - 1);
      assert false;
    }
    assert PageItems(feed, term, k) == PageItems(feed, term, k - 1);
  }

  /** Page 1 holds three items and page 2 answers 404: with a cap of five,
   *  the three summaries come back and two pages were requested. */
  lemma FailureOnSecondPage(term: string, page1: seq<FeedItem>,
                            articles: seq<Summary>, requests: seq<FeedRequest>)
    requires |page1| == 3
    requires SearchOutcome((r: FeedRequest) => if r.page == 1 then Response(200, page1) else Response(404, []),
                           term, 5, articles, requests)
    ensures |requests| == 2
    ensures articles == [Summarize(page1[0]), Summarize(page1[1]), Summarize(page1[2])]
  {
    var feed: Feed := (r: FeedRequest) => if r.page == 1 then Response(200, page1) else Response(404, []);
    assert PageItems(feed, term, 1) == page1;
    StopsAtFirstFailure(feed, term, 5, 2, articles, requests);
  }
}
