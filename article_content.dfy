/**
 * Extraction of one article: the page's title, lead paragraph and body,
 * each defaulted when its region is missing, and the lead and body joined
 * into the article's content.
 */
module ArticleContent {
  import opened Wrappers

  const STATUS_OK: int := 200
  const UNKNOWN_TITLE: string := "Unknown Title"
  /** The blank line between lead and body. */
  const SEPARATOR: string := "\n\n"

  /** The record returned for one article. */
  datatype Article = Article(title: string, url: string, content: string)

  /** The fetched article page: its HTTP status and the stripped text of the
   *  title heading, the first lead paragraph and the rich-content body, each
   *  None when its selector finds no element. */
  datatype ArticlePage = ArticlePage(status: int, heading: Option<string>,
                                     lead: Option<string>, body: Option<string>)

  /** The content made of a lead and a body: the lead and a blank line first
   *  when there is a lead, the body alone otherwise. */
  function Compose(lead: string, body: string): (c: string)
    ensures lead == "" ==> |c| == |body|
    ensures lead != "" ==> |c| == |lead| + |SEPARATOR| + |body|
    ensures c[|c| - |body|..] == body
    ensures lead != "" ==> c[..|lead| + |SEPARATOR|] == lead + SEPARATOR
  {
    if lead != "" then lead + SEPARATOR + body else body
  }

  /** `scrape_article_content` once the page is fetched and its regions located. */
  function ScrapeArticleContent(url: string, page: ArticlePage): (a: Article)
    ensures a.url == url
    ensures page.status != STATUS_OK ==> a.title == UNKNOWN_TITLE && a.content == ""
    ensures page.status == STATUS_OK && page.heading.Some? ==> a.title == page.heading.value
    ensures page.status == STATUS_OK && page.heading.None? ==> a.title == UNKNOWN_TITLE
    ensures page.status == STATUS_OK ==> a.content == Compose(page.lead.GetOr(""), page.body.GetOr(""))
  {
    if page.status != STATUS_OK then Article(UNKNOWN_TITLE, url, "")
    else
      var title := page.heading.GetOr(UNKNOWN_TITLE);
      var lead := page.lead.GetOr("");
      var body := page.body.GetOr("");
      Article(title, url, Compose(lead, body))
  }

  /** Compose loses nothing: lead and body are read back from the content. */
  lemma ComposeSplits(lead: string, body: string)
    ensures var c := Compose(lead, body);
      && (lead != "" ==> c[..|lead|] == lead && c[|lead|..|lead| + 2] == SEPARATOR)
      && c[|c| - |body|..] == body
  {
    var c := Compose(lead, body);
    if lead != "" {
      assert c[..|lead|] == (lead + SEPARATOR)[..|lead|];
      assert c[|lead|..|lead| + 2] == (lead + SEPARATOR)[|lead|..];
    }
  }

  /** Compose is one-to-one on pairs whose lead is given. */
  lemma {:induction false} ComposeInjective(lead: string, body1: string, body2: string)
    requires Compose(lead, body1) == Compose(lead, body2)
    ensures body1 == body2
  {
    var c := Compose(lead, body1);
    assert |body1| == |body2|;
    assert body1 == c[|c| - |body1|..];
  }

  /** With a successful fetch the content is empty exactly when lead and
   *  body are both empty or missing. */
  lemma ContentEmptyIff(url: string, page: ArticlePage)
    requires page.status == STATUS_OK
    ensures ScrapeArticleContent(url, page).content == ""
            <==> page.lead.GetOr("") == "" && page.body.GetOr("") == ""
  {
  }

  /** A failed fetch gives the same default record whatever the page holds. */
  lemma FailedFetchIgnoresPage(url: string, page1: ArticlePage, page2: ArticlePage)
    requires page1.status != STATUS_OK && page2.status != STATUS_OK
    ensures ScrapeArticleContent(url, page1) == ScrapeArticleContent(url, page2)
    ensures ScrapeArticleContent(url, page1) == Article(UNKNOWN_TITLE, url, "")
  {
  }

  /** A page with a body and no lead paragraph has the body as its content. */
  lemma BodyOnly(url: string, page: ArticlePage)
    requires page.status == STATUS_OK && page.lead.None? && page.body.Some?
    ensures ScrapeArticleContent(url, page).content == page.body.value
  {
  }

  /** A page with a lead and a body joins them with a blank line. */
  lemma LeadAndBody(url: string, page: ArticlePage)
    requires page.status == STATUS_OK && page.lead.Some? && page.lead.value != "" && page.body.Some?
    ensures ScrapeArticleContent(url, page).content == page.lead.value + "\n\n" + page.body.value
  {
  }
}
