/**
 * The query-string handling of the `/articles` and `/articles/:slug/related`
 * endpoints: defaulting of `page` and `limit`, the offset and page-count
 * arithmetic, and the not-found decision for an unknown slug.
 */
module Routes {
  import opened Wrappers
  import opened Schema
  import opened Collections
  import opened Storage
  import opened Query
  import opened Related

  const DefaultPage := 1
  const DefaultListLimit := 9
  const DefaultRelatedLimit := 3
  const NotFoundMessage := "Article not found"

  /**
   * `parseInt(param) || fallback`: `None` is a missing or unparsable parameter
   * (NaN); it and 0 are both falsy and take the fallback.
   */
  function OrDefault(parsed: Option<int>, fallback: int): (r: int)
    ensures fallback != 0 ==> r != 0
    ensures parsed.Some? && parsed.value != 0 ==> r == parsed.value
    ensures parsed.None? || parsed.value == 0 ==> r == fallback
  {
    if parsed.Some? && parsed.value != 0 then parsed.value else fallback
  }

  /** `Math.ceil(a / b)` for a non-zero divisor: the least integer at or above the exact quotient. */
  function CeilDiv(a: int, b: int): (r: int)
    requires b != 0
    ensures b > 0 ==> (r - 1) * b < a <= r * b
    ensures b < 0 ==> r * b <= a < (r - 1) * b
  {
    if b > 0 then
      var q := (-a) / b;
      assert (-a) == q * b + (-a) % b;
      -q
    else
      var q := a / (-b);
      assert a == q * (-b) + a % (-b);
      -q
  }

  datatype Pagination = Pagination(total: int, page: int, totalPages: int, limit: int)

  /** The JSON body of a successful `/articles` request. */
  datatype ArticleListing = ArticleListing(articles: seq<ArticleWithDetails>, pagination: Pagination)

  /** A handler's outcome: the JSON body, or a 404 with its message. */
  datatype Response<T> = Ok(body: T) | NotFound(message: string)

  /** `GET /articles?page=&limit=&category=&search=`. */
  function ListArticles(st: Store, pageParam: Option<int>, limitParam: Option<int>,
                        category: Option<string>, search: Option<string>): (r: ArticleListing)
    ensures r.pagination.page == OrDefault(pageParam, DefaultPage) != 0
    ensures r.pagination.limit == OrDefault(limitParam, DefaultListLimit) != 0
    ensures pageParam.None? || pageParam.value == 0 ==> r.pagination.page == 1
    ensures limitParam.None? || limitParam.value == 0 ==> r.pagination.limit == 9
    ensures r.pagination.total == |GetArticles(st, None, 0, category, search)|
    ensures r.articles == GetArticles(st, Some(r.pagination.limit), (r.pagination.page - 1) * r.pagination.limit, category, search)
    ensures r.pagination.totalPages == CeilDiv(r.pagination.total, r.pagination.limit)
  {
    ListPage(st, OrDefault(pageParam, DefaultPage), OrDefault(limitParam, DefaultListLimit), category, search)
  }

  /** The `/articles` body once `page` and `limit` are settled. */
  function ListPage(st: Store, page: int, limit: int, category: Option<string>, search: Option<string>): (r: ArticleListing)
    requires limit != 0
    ensures r.pagination.page == page && r.pagination.limit == limit
    ensures r.pagination.total == |GetArticles(st, None, 0, category, search)|
    ensures r.articles == GetArticles(st, Some(limit), (page - 1) * limit, category, search)
    ensures r.pagination.totalPages == CeilDiv(r.pagination.total, limit)
  {
    var offset := (page - 1) * limit;
    var articles := GetArticles(st, Some(limit), offset, category, search);
    var total := GetArticleCount(st, category, search);
    ArticleListing(articles, Pagination(total, page, CeilDiv(total, limit), limit))
  }

  /** Page `page` (counting from 1) of `all` with `limit` items a page; empty past the end. */
  function PageOf<T>(all: seq<T>, page: int, limit: int): (r: seq<T>)
    requires page > 0 && limit > 0
    ensures |r| <= limit
    ensures |r| > 0 <==> (page - 1) * limit < |all|
    ensures forall i :: 0 <= i < |r| ==>
      0 <= (page - 1) * limit + i < |all| && r[i] == all[(page - 1) * limit + i]
  {
    var offset := (page - 1) * limit;
    NonNegativeProduct(page - 1, limit);
    if offset < |all| then all[offset..Min(offset + limit, |all|)] else []
  }

  /**
   * Pages of a positive size split the listing without gaps or overlap: item
   * `k` sits on page `k / limit + 1` at position `k % limit`.
   */
  lemma EveryItemOnItsPage<T>(all: seq<T>, limit: int, k: int)
    requires limit > 0 && 0 <= k < |all|
    ensures var page := k / limit + 1;
      k % limit < |PageOf(all, page, limit)| && PageOf(all, page, limit)[k % limit] == all[k]
  {
    var page := k / limit + 1;
    assert (page - 1) * limit + k % limit == k;
    var r := PageOf(all, page, limit);
    assert (page - 1) * limit < |all|;
    assert |r| == Min(limit, |all| - (page - 1) * limit);
  }

  /**
   * For a positive page and limit, the listing is that page of the unbounded,
   * newest-first listing.
   */
  lemma ListArticlesIsPage(st: Store, pageParam: Option<int>, limitParam: Option<int>,
                           category: Option<string>, search: Option<string>)
    requires OrDefault(pageParam, DefaultPage) > 0 && OrDefault(limitParam, DefaultListLimit) > 0
    ensures var r := ListArticles(st, pageParam, limitParam, category, search);
      r.articles == PageOf(GetArticles(st, None, 0, category, search), r.pagination.page, r.pagination.limit)
  {
    var page := OrDefault(pageParam, DefaultPage);
    var limit := OrDefault(limitParam, DefaultListLimit);
    PagedListingIsPage(st, page, limit, category, search);
  }

  /**
   * A positive page and limit cut from the unbounded, newest-first listing the
   * run that starts at `(page - 1) * limit` and holds at most `limit` articles.
   */
  lemma PagedListingIsPage(st: Store, page: int, limit: int,
                           category: Option<string>, search: Option<string>)
    requires page > 0 && limit > 0
    ensures GetArticles(st, Some(limit), (page - 1) * limit, category, search)
         == PageOf(GetArticles(st, None, 0, category, search), page, limit)
  {
    var sorted := SortByDate(Selected(st, category, search));
    ListingIsSlice(st, limit, (page - 1) * limit, category, search);
    ListingIsWhole(st, category, search);
    EnrichedSliceIsPage(st, sorted, page, limit);
  }

  lemma ListingIsSlice(st: Store, limit: int, offset: int, category: Option<string>, search: Option<string>)
    requires limit != 0
    ensures GetArticles(st, Some(limit), offset, category, search)
         == EnrichAll(st, JsSlice(SortByDate(Selected(st, category, search)), offset, offset + limit))
  {
    var page := ArticlePage(st, Some(limit), offset, category, search);
    PagedPage(st, limit, offset, category, search);
    EnrichAllPointwise(st, page, GetArticles(st, Some(limit), offset, category, search));
  }

  lemma ListingIsWhole(st: Store, category: Option<string>, search: Option<string>)
    ensures GetArticles(st, None, 0, category, search) == EnrichAll(st, SortByDate(Selected(st, category, search)))
  {
    assert ArticlePage(st, None, 0, category, search) == SortByDate(Selected(st, category, search));
  }

  /** Cutting page `page` by `slice` and then enriching gives that page of the enriched list. */
  lemma EnrichedSliceIsPage(st: Store, xs: seq<Article>, page: int, limit: int)
    requires page > 0 && limit > 0
    ensures EnrichAll(st, JsSlice(xs, (page - 1) * limit, (page - 1) * limit + limit))
         == PageOf(EnrichAll(st, xs), page, limit)
  {
    SliceIsPage(xs, page, limit);
    EnrichPage(st, xs, page, limit);
  }

  /** `slice((page - 1) * limit, (page - 1) * limit + limit)` is page `page`. */
  lemma SliceIsPage<T>(xs: seq<T>, page: int, limit: int)
    requires page > 0 && limit > 0
    ensures JsSlice(xs, (page - 1) * limit, (page - 1) * limit + limit) == PageOf(xs, page, limit)
  {
    NonNegativeProduct(page - 1, limit);
  }

  /** Enriching a page gives the same page of the enriched list. */
  lemma EnrichPage(st: Store, xs: seq<Article>, page: int, limit: int)
    requires page > 0 && limit > 0
    ensures EnrichAll(st, PageOf(xs, page, limit)) == PageOf(EnrichAll(st, xs), page, limit)
  {
    var offset := (page - 1) * limit;
    NonNegativeProduct(page - 1, limit);
    if offset < |xs| {
      EnrichAllSlice(st, xs, offset, Min(offset + limit, |xs|));
    }
  }

  lemma NonNegativeProduct(a: int, b: int)
    requires a >= 0 && b >= 0
    ensures a * b >= 0
  {
  }

  /**
   * `Math.ceil(total / limit)` for a positive limit and a non-negative total:
   * that many pages cover the total, the last one is not empty, and a zero
   * total has no pages.
   */
  lemma PageCountCovers(p: Pagination)
    requires p.limit > 0 && p.total >= 0 && p.totalPages == CeilDiv(p.total, p.limit)
    ensures p.totalPages * p.limit >= p.total
    ensures p.total > 0 ==> (p.totalPages - 1) * p.limit < p.total
    ensures p.total == 0 ==> p.totalPages == 0
  {
  }

  /** The pagination `/articles` reports: `totalPages` covers `total` with `limit` articles a page. */
  lemma TotalPagesCovers(st: Store, pageParam: Option<int>, limitParam: Option<int>,
                         category: Option<string>, search: Option<string>)
    requires OrDefault(limitParam, DefaultListLimit) > 0
    ensures var p := ListArticles(st, pageParam, limitParam, category, search).pagination;
      && p.totalPages * p.limit >= p.total
      && (p.total > 0 ==> (p.totalPages - 1) * p.limit < p.total)
      && (p.total == 0 ==> p.totalPages == 0)
  {
    PageCountCovers(ListArticles(st, pageParam, limitParam, category, search).pagination);
  }

  /** A page starts before the end of `all` exactly when it is at most the page count. */
  lemma PageStartsWithin<T>(all: seq<T>, p: Pagination)
    requires p.page > 0 && p.limit > 0 && p.total == |all| && p.totalPages == CeilDiv(p.total, p.limit)
    ensures |PageOf(all, p.page, p.limit)| > 0 <==> p.page <= p.totalPages
  {
    var n := p.totalPages;
    PageCountCovers(p);
    if p.page <= n {
      assert (n - 1) * p.limit - (p.page - 1) * p.limit == (n - p.page) * p.limit;
      NonNegativeProduct(n - p.page, p.limit);
    } else {
      assert (p.page - 1) * p.limit - n * p.limit == (p.page - 1 - n) * p.limit;
      NonNegativeProduct(p.page - 1 - n, p.limit);
    }
  }

  /**
   * A page between 1 and `totalPages` is never empty, and a page past
   * `totalPages` always is (positive limit).
   */
  lemma PagesInRangeAreFilled(st: Store, pageParam: Option<int>, limitParam: Option<int>,
                              category: Option<string>, search: Option<string>)
    requires OrDefault(pageParam, DefaultPage) > 0 && OrDefault(limitParam, DefaultListLimit) > 0
    ensures var r := ListArticles(st, pageParam, limitParam, category, search);
      |r.articles| > 0 <==> r.pagination.page <= r.pagination.totalPages
  {
    var r := ListArticles(st, pageParam, limitParam, category, search);
    ListArticlesIsPage(st, pageParam, limitParam, category, search);
    PageStartsWithin(GetArticles(st, None, 0, category, search), r.pagination);
  }

  /** `GET /articles/:slug`: the enriched article, or 404 when no article has the slug. */
  function ArticleBySlug(st: Store, slug: string): (r: Response<ArticleWithDetails>)
    ensures r.Ok? ==> r.body.article.slug == slug && r.body.article in st.articles.Values
    ensures r.Ok? ==> r.body == Enrich(st, r.body.article)
    ensures r.Ok? ==> GetArticleBySlug(st, slug) == Some(r.body)
    ensures r.NotFound? <==> forall k :: k in st.articles ==> st.articles[k].slug != slug
    ensures r.NotFound? ==> r.message == NotFoundMessage
  {
    match GetArticleBySlug(st, slug)
    case None => NotFound(NotFoundMessage)
    case Some(article) => Ok(article)
  }

  /**
   * `GET /articles/:slug/related?limit=`: 404 when no article has the slug,
   * otherwise the related list of that article with the limit defaulting to 3.
   */
  function RelatedBySlug(st: Store, slug: string, limitParam: Option<int>): (r: Response<seq<ArticleWithDetails>>)
    ensures r.NotFound? <==> forall k :: k in st.articles ==> st.articles[k].slug != slug
    ensures r.Ok? ==> exists k :: (k in st.articles && st.articles[k].slug == slug
      && r.body == GetRelatedArticles(st, st.articles[k].id, OrDefault(limitParam, DefaultRelatedLimit)))
  {
    RelatedForSlug(st, slug, OrDefault(limitParam, DefaultRelatedLimit))
  }

  /** The related endpoint once `limit` is settled. */
  function RelatedForSlug(st: Store, slug: string, limit: int): Response<seq<ArticleWithDetails>> {
    match GetArticleBySlug(st, slug)
    case None => NotFound(NotFoundMessage)
    case Some(article) => Ok(GetRelatedArticles(st, article.article.id, limit))
  }

  /**
   * The two slug endpoints agree: both answer 404 for the same slugs, and for a
   * known slug the related list is that of the article the detail endpoint returns.
   */
  lemma SlugEndpointsAgree(st: Store, slug: string, limitParam: Option<int>)
    ensures ArticleBySlug(st, slug).NotFound? <==> RelatedBySlug(st, slug, limitParam).NotFound?
    ensures ArticleBySlug(st, slug).Ok? ==>
      RelatedBySlug(st, slug, limitParam)
        == Ok(GetRelatedArticles(st, ArticleBySlug(st, slug).body.article.id, OrDefault(limitParam, DefaultRelatedLimit)))
  {
  }

  /**
   * A missing, unparsable or zero `page` or `limit` behaves exactly like the
   * default written out: page 1, limit 9.
   */
  lemma ListDefaults(st: Store, category: Option<string>, search: Option<string>)
    ensures ListArticles(st, None, None, category, search) == ListArticles(st, Some(1), Some(9), category, search)
    ensures ListArticles(st, Some(0), Some(0), category, search) == ListArticles(st, Some(1), Some(9), category, search)
  {
    var settled := ListPage(st, 1, 9, category, search);
    assert ListArticles(st, None, None, category, search) == settled;
    assert ListArticles(st, Some(0), Some(0), category, search) == settled;
    assert ListArticles(st, Some(1), Some(9), category, search) == settled;
  }

  /** A missing, unparsable or zero `limit` on the related endpoint behaves exactly like 3. */
  lemma RelatedDefaults(st: Store, slug: string)
    ensures RelatedBySlug(st, slug, None) == RelatedBySlug(st, slug, Some(3))
    ensures RelatedBySlug(st, slug, Some(0)) == RelatedBySlug(st, slug, Some(3))
  {
    var settled := RelatedForSlug(st, slug, 3);
    assert OrDefault(Some(3), DefaultRelatedLimit) == 3;
    assert RelatedBySlug(st, slug, None) == settled;
    assert RelatedBySlug(st, slug, Some(0)) == settled;
    assert RelatedBySlug(st, slug, Some(3)) == settled;
  }
}
