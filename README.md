# Telex archive scraper, modelled in Dafny

`telex_scraper.py` offers two static operations of `TelexScraper`:

- `search_articles(query, max_results)` resolves a search term from a loosely
  typed query argument. It then asks the site's RSS archive for pages 1, 2, 3, …
  (ten items per page) and turns each `<item>` into a summary
  `{title, url, date}`. It stops once `max_results` summaries are gathered,
  when a page answers with a status other than 200, or when a page holds no items.
- `scrape_article_content(url)` fetches one article page and returns
  `{title, url, content}`. The content is the lead paragraph and the body,
  joined by a blank line when there is a non-empty lead, and otherwise the
  body alone.

The model has four modules:

- `Wrappers` (wrappers.dfy): `Option`, which stands for a missing element.
- `SearchTerm` (search_term.dfy): resolving the term, written as pure functions.
  This covers choosing between a mapping entry and text, the `query="…"`
  regular expression, the `"None"` rule and the `%20` encoding of spaces.
- `ArticleSearch` (article_search.dfy): `SearchArticles` resolves the term and
  calls `Paginate`. `Paginate` is the pagination loop: a method with a `while`
  loop, an inner loop that breaks, and loop invariants. Both methods are
  proved against the ghost predicate `SearchOutcome`. Lemmas about that
  predicate prove the promised properties.
- `ArticleContent` (article_content.dfy): the defaulting rules and the content
  composition, written as pure functions.

Network access is replaced by inputs:

- The feed is a function `Feed` from a request to a response. A request is the
  perPage, page number and term in the URL. A response is the HTTP status and
  the parsed `<item>` elements.
- The method returns the list of requests it made, next to the summaries.
- An article page is an `ArticlePage`: its status and the stripped text of the
  three regions the selectors find. Each region is `None` when its selector
  finds nothing.

## Model

| member | source | states |
|---|---|---|
| `SearchTerm.FirstQuote` | telex_scraper.py:32 | the greedy `[^"']+` run ends at the first quote character at or after a position; returns None exactly when no quote follows |
| `SearchTerm.MatchEnd` | telex_scraper.py:32 | a match starting at `i` exists exactly when "query=", a quote, at least one non-quote character and a closing quote follow; returns the closing quote's index |
| `SearchTerm.PatternEndUnique` | telex_scraper.py:32 | a match starting at a given position has only one possible closing quote |
| `SearchTerm.SearchFrom` | telex_scraper.py:32 | `re.search` finds the leftmost match: no match starts earlier, and None means no match anywhere |
| `SearchTerm.Extract` | telex_scraper.py:32-35 | the text contains a match exactly when a group is extracted; the group is non-empty and quote-free |
| `SearchTerm.ExtractLeftmost` | telex_scraper.py:27-35 | for text with a match, the raw term (before the "None" rule and the space encoding) is the group of the leftmost match, the text between its opening quote and the next quote of either kind |
| `SearchTerm.TextSuppliesTerm` | telex_scraper.py:27-42 | for text with a match whose group is not "None", the term sent is the group of the leftmost match with its spaces encoded |
| `SearchTerm.NoPatternWholeText` | telex_scraper.py:36-38 | text with no match is used whole as the term |
| `SearchTerm.MappingSuppliesTerm` | telex_scraper.py:23-24 | a mapping's "query" entry is taken as it stands, with no pattern extraction; only spaces are then encoded |
| `SearchTerm.RawTerm` | telex_scraper.py:22-38 | a mapping gives its "query" entry; a text with no match gives the whole text; a text with a match gives the group of one of its matches (`ExtractLeftmost` says which: the leftmost) |
| `SearchTerm.EncodeSpaces` | telex_scraper.py:42 | the encoded term contains no space, and its length is the input's length plus twice its number of spaces |
| `SearchTerm.EncodeSpacesAppend` | telex_scraper.py:42 | encoding is piecewise: encoding a concatenation concatenates the encodings, so character order is kept |
| `SearchTerm.EncodeSpacesSingle` | telex_scraper.py:42 | a single space becomes exactly `%20`; any other character stays itself |
| `SearchTerm.EncodeSpacesNoSpace` | telex_scraper.py:42 | a term without spaces is left unchanged |
| `SearchTerm.EncodeOneSpace` | telex_scraper.py:42 | two space-free words joined by one space become the words joined by `%20` |
| `SearchTerm.DecodeEncodeSpaces` | telex_scraper.py:42 | for a term without '%', turning each `%20` back into a space recovers the term, so the encoding loses nothing |
| `SearchTerm.ResolveTerm` | telex_scraper.py:22-42 | the final term has no spaces; a raw term "None" gives the empty term; any other raw term grows by two characters per space |
| `SearchTerm.NoneGivesEmptyTerm` | telex_scraper.py:14-40 | the default `query=None` (text "None") and a mapping entry "None" both give the empty term |
| `SearchTerm.MappingExample` | telex_scraper.py:23-42 | `{"query": "foo bar"}` gives the term `foo%20bar` |
| `SearchTerm.TextExample` | telex_scraper.py:27-42 | the text `query="baz"` gives the term `baz` |
| `ArticleSearch.Delivered` | telex_scraper.py:53-64 | a non-200 response contributes no items; a page the loop goes on after contributes all its items |
| `ArticleSearch.ContinuesIffDelivers` | telex_scraper.py:53-64 | the loop goes on after a page (neither `break` at lines 53 and 62 is taken) exactly when the page delivers at least one item |
| `ArticleSearch.Summarize` | telex_scraper.py:70-78 | a summary copies the item's title and link; its date is the pubDate when present, otherwise "Unknown Date" |
| `ArticleSearch.SearchArticles` | telex_scraper.py:14-82 | with the defaults `query=None` and `max_results=5`, resolves the term and runs the pagination loop; the results satisfy `SearchOutcome` for the resolved term. With max_results <= 0 nothing is requested and nothing is returned; otherwise at most max_results summaries come back |
| `ArticleSearch.Paginate` | telex_scraper.py:44-82 | the loop's results satisfy `SearchOutcome`. Pages 1..n are requested in order with the term and perPage 10 (the varying parts of the URL built at line 49). Every page but the last delivered items. A page is requested only while fewer than max_results items have been gathered. The summaries are those of the first items in feed order. The loop stops at the cap or at the first failed or empty page. With max_results <= 0 nothing is requested and nothing is returned; otherwise at most max_results summaries come back |
| `ArticleSearch.PageItemsPrefix` | telex_scraper.py:66-80 | the items of the first m pages are a prefix of the items of the first n pages when m <= n |
| `ArticleSearch.PagesRequestedUnique` | telex_scraper.py:48-80 | two outcomes of one search request the same number of pages: `SearchOutcome` fixes the page count |
| `ArticleSearch.OutcomeUnique` | telex_scraper.py:44-82 | `SearchOutcome` determines both the summaries and the requests, so it fully specifies the loop |
| `ArticleSearch.ExactlyMaxResults` | telex_scraper.py:48-68 | when the first m pages all deliver items and hold at least max_results of them, exactly max_results summaries come back: those of the first max_results items. No page beyond m is requested |
| `ArticleSearch.StopsAtFirstFailure` | telex_scraper.py:48-64 | when page k is the first failed or empty page and the pages before it hold fewer than max_results items, pages 1..k are requested and the summaries of all items before page k come back |
| `ArticleSearch.FailureOnSecondPage` | telex_scraper.py:53-57 | with three items on page 1, a 404 on page 2 and a cap of 5, the three summaries come back after two requests |
| `ArticleContent.Compose` | telex_scraper.py:110 | the content ends with the body; with a lead it starts with the lead and a blank line and is two characters longer than both together; without a lead it is the body |
| `ArticleContent.ScrapeArticleContent` | telex_scraper.py:89-112 | the url is returned unchanged. A non-200 status gives "Unknown Title" and empty content. Otherwise a missing title becomes "Unknown Title" and a missing lead or body becomes empty before composing |
| `ArticleContent.ComposeSplits` | telex_scraper.py:110 | the lead, the blank line and the body can be read back from the content at their positions |
| `ArticleContent.ComposeInjective` | telex_scraper.py:110 | for a given lead, different bodies give different contents |
| `ArticleContent.ContentEmptyIff` | telex_scraper.py:106-110 | after a successful fetch the content is empty exactly when lead and body are both empty or missing |
| `ArticleContent.FailedFetchIgnoresPage` | telex_scraper.py:89-92 | a failed fetch gives `{"Unknown Title", url, ""}` whatever the page holds |
| `ArticleContent.BodyOnly` | telex_scraper.py:107-110 | a page with a body and no lead has the body as its content |
| `ArticleContent.LeadAndBody` | telex_scraper.py:107-110 | a page with a non-empty lead and a body has content lead + "\n\n" + body |

## Left out

- HTTP (`requests.get`) is left out. The feed and the article page are inputs. An exception raised by `requests.get` (a failed connection, a time-out) is not modelled: the source does not catch it, so it propagates out of both operations and the summaries gathered so far are lost.
- XML and HTML parsing is left out: BeautifulSoup, the CSS selectors on lines 96-104 and `get_text(strip=True)`. Their results are given as item records and optional strings.
- The `filters` parameter is left out: `json.dumps` and `urllib.parse.quote` of the constant empty-filters object on lines 18-20. It is the same constant in every request, so `FeedRequest` omits it, together with the fixed base URL.
- The failure notices printed on lines 54-56, 63 and 91 are left out. They are a side channel only.
- Items that lack a `<title>` or `<link>` are not modelled. Python raises `AttributeError` there. `FeedItem` always has both, and only `pubDate` is optional.
- A mapping whose "query" entry is not a string is not modelled. The entry is a `string`. The `str()` of a non-mapping value, or of a mapping without a "query" key, is given as the text of `Text`.
