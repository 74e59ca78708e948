/**
  `OptiSignsScraper.fetch_articles_list`: page through the help-centre catalog,
  accumulating each page's articles until a page stops the walk. The HTTP
  exchanges are replaced by the sequence of responses the server gives, one per
  requested page (page numbers 1, 2, ... in order).
 */
module ScraperListing {

  /** A catalog entry; only its id is used downstream (as `str(article_info['id'])`). */
  datatype ArticleInfo = ArticleInfo(id: string)

  /**
    One page request: `Raised` when `requests.get` or `response.json()` throws;
    otherwise the status code, `data.get('articles', [])` and whether
    `data.get('next_page')` is truthy.
   */
  datatype PageResponse =
    | Raised
    | Response(status: int, articles: seq<ArticleInfo>, nextPage: bool)

  /** This response ends the walk (one of the four `break`s). */
  predicate Stops(p: PageResponse) {
    p.Raised? || p.status != 200 || p.articles == [] || !p.nextPage
  }

  /** Some page of the server's responses ends the walk, so the loop terminates. */
  predicate Terminates(pages: seq<PageResponse>) {
    exists i :: 0 <= i < |pages| && Stops(pages[i])
  }

  /** What the loop returns, read page by page from the front. */
  function Listing(pages: seq<PageResponse>): seq<ArticleInfo> {
    if pages == [] then
      []
    else
      match pages[0]
      case Raised => []
      case Response(status, items, next) =>
        if status != 200 || items == [] then []
        else if !next then items
        else items + Listing(pages[1..])
  }

  method FetchArticlesList(pages: seq<PageResponse>) returns (articles: seq<ArticleInfo>)
    requires Terminates(pages)
    ensures articles == Listing(pages)
  {
    articles := [];
    var page := 0;  // index of the response to page number `page + 1`
    while true
      invariant 0 <= page < |pages|
      invariant forall j :: 0 <= j < page ==> !Stops(pages[j])
      invariant articles + Listing(pages[page..]) == Listing(pages)
      decreases |pages| - page
    {
      var response := pages[page];
      assert pages[page..][0] == response;
      if response.Raised? {
        break;
      }
      if response.status != 200 {
        break;
      }
      var pageArticles := response.articles;
      if pageArticles == [] {
        break;
      }
      articles := articles + pageArticles;
      if !response.nextPage {
        break;
      }
      assert pages[page..][1..] == pages[page + 1..];
      ghost var i :| 0 <= i < |pages| && Stops(pages[i]);
      assert page < i;
      page := page + 1;
    }
  }

  // ---------------------------------------------------------------------------
  // The listing as "accepted pages, then the stopping page"

  /** The index of the first page that ends the walk. */
  function FirstStop(pages: seq<PageResponse>): (k: nat)
    requires Terminates(pages)
    ensures k < |pages| && Stops(pages[k])
    ensures forall j :: 0 <= j < k ==> !Stops(pages[j])
  {
    if Stops(pages[0]) then
      0
    else
      var i :| 0 <= i < |pages| && Stops(pages[i]);
      assert Stops(pages[1..][i - 1]);
      var k := FirstStop(pages[1..]);
      assert forall j :: 1 <= j < k + 1 ==> pages[j] == pages[1..][j - 1];
      k + 1
  }

  /** All articles of the given pages, concatenated in page order. */
  function Flatten(pages: seq<PageResponse>): seq<ArticleInfo> {
    if pages == [] then []
    else (if pages[0].Raised? then [] else pages[0].articles) + Flatten(pages[1..])
  }

  /** What the stopping page adds: its articles if it was a successful last page, else nothing. */
  function StopContribution(p: PageResponse): seq<ArticleInfo> {
    if p.Response? && p.status == 200 then p.articles else []
  }

  /**
    The listing is every article of the pages before the first stop, in order,
    followed by the last page's articles when the walk ended on a successful
    page without a successor. Nothing accumulated before a failure is dropped.
   */
  lemma {:induction false} ListingIsAcceptedPages(pages: seq<PageResponse>)
    requires Terminates(pages)
    ensures Listing(pages) == Flatten(pages[..FirstStop(pages)]) + StopContribution(pages[FirstStop(pages)])
  {
    var k := FirstStop(pages);
    if k == 0 {
      assert pages[..0] == [];
    } else {
      var tail := pages[1..];
      assert Stops(tail[k - 1]);
      assert Terminates(tail);
      ListingIsAcceptedPages(tail);
      var k' := FirstStop(tail);
      assert k' == k - 1 by {
        assert forall j :: 0 <= j < k - 1 ==> !Stops(tail[j]) by {
          forall j | 0 <= j < k - 1 ensures !Stops(tail[j]) {
            assert tail[j] == pages[j + 1];
          }
        }
      }
      assert pages[..k][1..] == tail[..k - 1];
      assert pages[..k][0] == pages[0];
    }
  }

  /**
    A transport failure or a non-200 answer at page `j` truncates the catalog to
    exactly the articles gathered from the pages before it.
   */
  lemma FailureKeepsAccumulated(pages: seq<PageResponse>, j: nat)
    requires j < |pages|
    requires pages[j].Raised? || pages[j].status != 200
    requires forall i :: 0 <= i < j ==> !Stops(pages[i])
    ensures Listing(pages) == Flatten(pages[..j])
  {
    assert Stops(pages[j]);
    ListingIsAcceptedPages(pages);
    var k := FirstStop(pages);
    assert k == j;
  }
}
