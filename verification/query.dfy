/**
 * The article listing engine: category filter, search filter, newest-first
 * ordering and the offset/limit page, plus the count and the featured list that
 * share its pieces.
 */
module Query {
  import opened Wrappers
  import opened Text
  import opened Schema
  import opened Collections
  import opened Storage

  // ------------------------------------------------------------- ordering

  /** Newest first: publish timestamps never increase along the list. */
  predicate NewestFirst(xs: seq<Article>) {
    forall i, j :: 0 <= i < j < |xs| ==> xs[i].publishedAt >= xs[j].publishedAt
  }

  /**
   * Places `x` in a newest-first list ahead of the first article that is not
   * newer than it, so `x` lands before articles with the same timestamp.
   */
  function InsertByDate(x: Article, ys: seq<Article>): (r: seq<Article>)
    ensures |r| == |ys| + 1
    ensures multiset(r) == multiset(ys) + multiset{x}
  {
    if |ys| == 0 then [x]
    else if ys[0].publishedAt <= x.publishedAt then [x] + ys
    else
      assert ys == [ys[0]] + ys[1..];
      [ys[0]] + InsertByDate(x, ys[1..])
  }

  /** Inserting into a newest-first list keeps it newest first. */
  lemma {:induction false} InsertByDateKeepsOrder(x: Article, ys: seq<Article>)
    requires NewestFirst(ys)
    ensures NewestFirst(InsertByDate(x, ys))
  {
    if |ys| > 0 && ys[0].publishedAt > x.publishedAt {
      var rest := InsertByDate(x, ys[1..]);
      InsertByDateKeepsOrder(x, ys[1..]);
      InsertByDateBounded(x, ys[1..], ys[0].publishedAt);
      ConsNewestFirst(ys[0], rest);
    }
  }

  /** An article no older than everything in a newest-first list can go in front of it. */
  lemma ConsNewestFirst(y: Article, rest: seq<Article>)
    requires NewestFirst(rest)
    requires forall i :: 0 <= i < |rest| ==> rest[i].publishedAt <= y.publishedAt
    ensures NewestFirst([y] + rest)
  {
    var r := [y] + rest;
    forall i, j | 0 <= i < j < |r| ensures r[i].publishedAt >= r[j].publishedAt {
      assert r[j] == rest[j - 1];
      if i > 0 {
        assert r[i] == rest[i - 1];
      }
    }
  }

  /** A bound on the timestamps of `x` and of every element of `ys` bounds those of the insertion. */
  lemma {:induction false} InsertByDateBounded(x: Article, ys: seq<Article>, bound: int)
    requires x.publishedAt <= bound
    requires forall i :: 0 <= i < |ys| ==> ys[i].publishedAt <= bound
    ensures forall i :: 0 <= i < |InsertByDate(x, ys)| ==> InsertByDate(x, ys)[i].publishedAt <= bound
  {
    if |ys| > 0 && ys[0].publishedAt > x.publishedAt {
      InsertByDateBounded(x, ys[1..], bound);
    }
  }

  /**
   * The sort `(a, b) => b.publishedAt - a.publishedAt` performed by a stable
   * sort: an insertion sort working from the back of the list.
   */
  function SortByDate(xs: seq<Article>): (r: seq<Article>)
    ensures |r| == |xs|
    ensures multiset(r) == multiset(xs)
    ensures NewestFirst(r)
  {
    if |xs| == 0 then []
    else
      assert xs == [xs[0]] + xs[1..];
      var sorted := SortByDate(xs[1..]);
      InsertByDateKeepsOrder(xs[0], sorted);
      InsertByDate(xs[0], sorted)
  }

  /** Among articles with the same timestamp, the one with the smaller id comes first. */
  predicate TiesByCreation(xs: seq<Article>) {
    forall i, j :: 0 <= i < j < |xs| && xs[i].publishedAt == xs[j].publishedAt ==> xs[i].id < xs[j].id
  }

  /** Ids strictly increase along the list. */
  predicate IdsAscending(xs: seq<Article>) {
    forall i, j :: 0 <= i < j < |xs| ==> xs[i].id < xs[j].id
  }

  lemma {:induction false} InsertByDateTies(x: Article, ys: seq<Article>)
    requires TiesByCreation(ys)
    requires forall i :: 0 <= i < |ys| ==> TiedAfter(x)(ys[i])
    ensures TiesByCreation(InsertByDate(x, ys))
  {
    var r := InsertByDate(x, ys);
    if |ys| == 0 {
    } else if ys[0].publishedAt <= x.publishedAt {
      assert r == [x] + ys;
      forall i, j | 0 <= i < j < |r| && r[i].publishedAt == r[j].publishedAt ensures r[i].id < r[j].id {
        assert r[j] == ys[j - 1];
        if i > 0 {
          assert r[i] == ys[i - 1];
        } else {
          assert TiedAfter(x)(ys[j - 1]);
        }
      }
    } else {
      var rest := InsertByDate(x, ys[1..]);
      InsertByDateTies(x, ys[1..]);
      forall i | 0 <= i < |ys[1..]| ensures TiedAfter(ys[0])(ys[1..][i]) {
        assert ys[1..][i] == ys[i + 1];
      }
      InsertByDateAll(x, ys[1..], TiedAfter(ys[0]));
      assert r == [ys[0]] + rest;
      forall i, j | 0 <= i < j < |r| && r[i].publishedAt == r[j].publishedAt ensures r[i].id < r[j].id {
        assert r[j] == rest[j - 1];
        if i == 0 {
          assert TiedAfter(ys[0])(rest[j - 1]);
        } else {
          assert r[i] == rest[i - 1];
        }
      }
    }
  }

  /** The test "`z` shares `a`'s timestamp only if it was created after `a`". */
  function TiedAfter(a: Article): Article -> bool {
    (z: Article) => z.publishedAt == a.publishedAt ==> a.id < z.id
  }

  /** A property of `x` and of every element of `ys` holds for every element of the insertion. */
  lemma InsertByDateAll(x: Article, ys: seq<Article>, p: Article -> bool)
    requires p(x) && forall i :: 0 <= i < |ys| ==> p(ys[i])
    ensures forall i :: 0 <= i < |InsertByDate(x, ys)| ==> p(InsertByDate(x, ys)[i])
  {
    var r := InsertByDate(x, ys);
    forall i | 0 <= i < |r| ensures p(r[i]) {
      assert r[i] in multiset(ys) + multiset{x};
      if r[i] != x {
        assert r[i] in ys;
      }
    }
  }

  /**
   * The sort is stable: fed a list in ascending id order, it keeps articles
   * with equal timestamps in ascending id order.
   */
  lemma {:induction false} SortByDateTies(xs: seq<Article>)
    requires IdsAscending(xs)
    ensures TiesByCreation(SortByDate(xs))
  {
    if |xs| > 0 {
      var sorted := SortByDate(xs[1..]);
      SortByDateTies(xs[1..]);
      forall i | 0 <= i < |sorted| ensures TiedAfter(xs[0])(sorted[i]) {
        assert sorted[i] in multiset(xs[1..]);
        var k :| 0 <= k < |xs[1..]| && xs[1..][k] == sorted[i];
        assert xs[k + 1] == sorted[i];
      }
      InsertByDateTies(xs[0], sorted);
    }
  }

  /** The test "published at exactly time `t`". */
  function DatedAt(t: int): Article -> bool {
    (a: Article) => a.publishedAt == t
  }

  /** Sorting neither adds nor drops an article. */
  lemma SortByDateMembers(xs: seq<Article>)
    ensures forall a :: a in SortByDate(xs) <==> a in xs
  {
    var r := SortByDate(xs);
    forall a ensures a in r <==> a in xs {
      assert a in r <==> a in multiset(r);
      assert a in xs <==> a in multiset(xs);
    }
  }

  /** A contiguous run of a newest-first list is newest first. */
  lemma WindowNewestFirst(xs: seq<Article>, lo: int, r: seq<Article>)
    requires WindowAt(xs, lo, r) && NewestFirst(xs)
    ensures NewestFirst(r)
  {
    forall i, j | 0 <= i < j < |r| ensures r[i].publishedAt >= r[j].publishedAt {
      assert r[i] == xs[lo + i] && r[j] == xs[lo + j];
    }
  }

  /** A contiguous run keeps equal-timestamp articles in creation order. */
  lemma WindowTies(xs: seq<Article>, lo: int, r: seq<Article>)
    requires WindowAt(xs, lo, r) && TiesByCreation(xs)
    ensures TiesByCreation(r)
  {
    forall i, j | 0 <= i < j < |r| && r[i].publishedAt == r[j].publishedAt ensures r[i].id < r[j].id {
      assert r[i] == xs[lo + i] && r[j] == xs[lo + j];
    }
  }

  /** The articles published at exactly time `t`, in list order. */
  function PublishedAt(xs: seq<Article>, t: int): seq<Article> {
    Filter(xs, DatedAt(t))
  }

  lemma {:induction false} InsertByDateStable(x: Article, ys: seq<Article>, t: int)
    ensures PublishedAt(InsertByDate(x, ys), t) == PublishedAt([x] + ys, t)
  {
    if |ys| > 0 && ys[0].publishedAt > x.publishedAt {
      var y, rest := ys[0], ys[1..];
      assert ys == [y] + rest;
      var inserted := InsertByDate(x, rest);
      assert InsertByDate(x, ys) == [y] + inserted;
      InsertByDateStable(x, rest, t);
      // x and y have different timestamps, so at most one of them survives the filter
      FilterPastFront(y, x, rest, inserted, DatedAt(t));
    } else {
      assert InsertByDate(x, ys) == [x] + ys;
    }
  }


  /**
   * The sort is stable: the articles sharing one timestamp keep the order they
   * had before sorting.
   */
  lemma {:induction false} SortByDateStable(xs: seq<Article>, t: int)
    ensures PublishedAt(SortByDate(xs), t) == PublishedAt(xs, t)
  {
    if |xs| > 0 {
      var p, sorted := DatedAt(t), SortByDate(xs[1..]);
      assert SortByDate(xs) == InsertByDate(xs[0], sorted);
      InsertByDateStable(xs[0], sorted, t);
      FilterAppend([xs[0]], sorted, p);
      SortByDateStable(xs[1..], t);
      FilterAppend([xs[0]], xs[1..], p);
      assert xs == [xs[0]] + xs[1..];
    }
  }


  // -------------------------------------------------------------- filters

  /** `if (s)` on an optional string: absent and empty both count as not given. */
  predicate Given(s: Option<string>) {
    s.Some? && s.value != ""
  }

  /** The ids of the articles linked to category `categoryId`, in join order. */
  function ArticleIdsInCategory(joins: seq<ArticleCategory>, categoryId: int): (r: seq<int>)
    ensures forall id :: id in r <==> ArticleCategory(id, categoryId) in joins
  {
    if |joins| == 0 then []
    else
      assert joins == [joins[0]] + joins[1..];
      (if joins[0].categoryId == categoryId then [joins[0].articleId] else [])
        + ArticleIdsInCategory(joins[1..], categoryId)
  }

  /**
   * The category step: when a slug is given and names a category, keep the
   * articles with a join record to it; otherwise keep every article.
   */
  function ByCategory(st: Store, categorySlug: Option<string>, xs: seq<Article>): seq<Article> {
    if Given(categorySlug) then
      match GetCategoryBySlug(st, categorySlug.value)
      case None => xs
      case Some(c) =>
        var ids := ArticleIdsInCategory(st.articleCategories, c.id);
        Filter(xs, (a: Article) => a.id in ids)
    else xs
  }

  /** Whether a lower-cased search term occurs in the lower-cased title, excerpt or content. */
  predicate Matches(a: Article, search: string) {
    || Includes(Lower(a.title), search)
    || Includes(Lower(a.excerpt), search)
    || Includes(Lower(a.content), search)
  }

  /** The search step: when a term is given, keep the articles it matches, ignoring ASCII case. */
  function BySearch(searchTerm: Option<string>, xs: seq<Article>): seq<Article> {
    if Given(searchTerm) then
      var search := Lower(searchTerm.value);
      Filter(xs, (a: Article) => Matches(a, search))
    else xs
  }

  /** The filter pipeline shared by `getArticles` and `getArticleCount`. */
  function Selected(st: Store, categorySlug: Option<string>, searchTerm: Option<string>): seq<Article> {
    BySearch(searchTerm, ByCategory(st, categorySlug, ArticleList(st)))
  }

  // --------------------------------------------------------- operations

  /** `if (limit)`: a limit of 0, or none at all, means the whole list. */
  predicate Paged(limit: Option<int>) {
    limit.Some? && limit.value != 0
  }

  /** The list `getArticles` returns, before enrichment. */
  function ArticlePage(st: Store, limit: Option<int>, offset: int,
                       categorySlug: Option<string>, searchTerm: Option<string>): seq<Article>
  {
    var sorted := SortByDate(Selected(st, categorySlug, searchTerm));
    if Paged(limit) then JsSlice(sorted, offset, offset + limit.value) else sorted
  }

  /** `getArticles(limit, offset, categorySlug, searchTerm)`. */
  function GetArticles(st: Store, limit: Option<int>, offset: int,
                       categorySlug: Option<string>, searchTerm: Option<string>): (r: seq<ArticleWithDetails>)
    ensures |r| == |ArticlePage(st, limit, offset, categorySlug, searchTerm)|
    ensures forall i :: 0 <= i < |r| ==> r[i] == Enrich(st, ArticlePage(st, limit, offset, categorySlug, searchTerm)[i])
    ensures forall d :: d in r ==> d == Enrich(st, d.article) && d.article in Selected(st, categorySlug, searchTerm)
    ensures forall i, j :: 0 <= i < j < |r| ==> r[i].article.publishedAt >= r[j].article.publishedAt
    ensures Paged(limit) && limit.value > 0 ==> |r| <= limit.value
  {
    EnrichedPageFacts(st, limit, offset, categorySlug, searchTerm);
    EnrichAll(st, ArticlePage(st, limit, offset, categorySlug, searchTerm))
  }

  /** `getArticleCount(categorySlug, searchTerm)`: the length of the unbounded listing with the same filters. */
  function GetArticleCount(st: Store, categorySlug: Option<string>, searchTerm: Option<string>): (n: nat)
    ensures n <= |st.articles|
    ensures n == |GetArticles(st, None, 0, categorySlug, searchTerm)|
  {
    |Selected(st, categorySlug, searchTerm)|
  }

  /** The test `article.isFeatured === 1`. */
  function IsFeatured(): Article -> bool {
    (a: Article) => a.isFeatured == 1
  }

  /** `getFeaturedArticles`: the articles whose flag is exactly 1, newest first, enriched. */
  function GetFeaturedArticles(st: Store): (r: seq<ArticleWithDetails>)
    ensures |r| <= |st.articles|
    ensures forall d :: d in r ==> d.article in st.articles.Values && d.article.isFeatured == 1 && d == Enrich(st, d.article)
    ensures forall k :: k in st.articles && st.articles[k].isFeatured == 1 ==> Enrich(st, st.articles[k]) in r
    ensures forall i, j :: 0 <= i < j < |r| ==> r[i].article.publishedAt >= r[j].article.publishedAt
  {
    var flagged := Filter(ArticleList(st), IsFeatured());
    var sorted := SortByDate(flagged);
    SortByDateMembers(flagged);
    EnrichAllArticles(st, sorted);
    assert forall k :: k in st.articles && st.articles[k].isFeatured == 1 ==> st.articles[k] in sorted by {
      forall k | k in st.articles && st.articles[k].isFeatured == 1 ensures st.articles[k] in sorted {
        assert st.articles[k] in st.articles.Values;
      }
    }
    EnrichAll(st, sorted)
  }

  // ------------------------------------------------------------- lemmas

  /** Every article `getArticles` returns comes from the filtered set. */
  lemma PageFromSelected(st: Store, limit: Option<int>, offset: int,
                         categorySlug: Option<string>, searchTerm: Option<string>)
    ensures forall a :: a in ArticlePage(st, limit, offset, categorySlug, searchTerm) ==> a in Selected(st, categorySlug, searchTerm)
  {
    var selected := Selected(st, categorySlug, searchTerm);
    var sorted := SortByDate(selected);
    var page := ArticlePage(st, limit, offset, categorySlug, searchTerm);
    PageIsWindow(st, limit, offset, categorySlug, searchTerm);
    var lo :| WindowAt(sorted, lo, page);
    WindowWithin(sorted, lo, page);
    SortByDateMembers(selected);
  }


  /**
   * With a positive limit the page holds at most `limit` articles, and with a
   * non-negative offset it is exactly the sorted, filtered list cut at
   * `[offset, offset + limit)` (clipped to the list's end).
   */
  lemma GetArticlesIsWindow(st: Store, limit: int, offset: int,
                            categorySlug: Option<string>, searchTerm: Option<string>)
    requires limit > 0
    ensures 0 <= offset ==>
      var all := SortByDate(Selected(st, categorySlug, searchTerm));
      var hi := Min(offset + limit, |all|);
      ArticlePage(st, Some(limit), offset, categorySlug, searchTerm) == if offset < |all| then all[offset..hi] else []
    ensures |GetArticles(st, Some(limit), offset, categorySlug, searchTerm)| <= limit
  {
    PagedPage(st, limit, offset, categorySlug, searchTerm);
  }

  /** Without a limit (absent or 0) the offset is ignored and the whole sorted list is returned. */
  lemma GetArticlesUnbounded(st: Store, limit: Option<int>, offset: int,
                             categorySlug: Option<string>, searchTerm: Option<string>)
    requires !Paged(limit)
    ensures ArticlePage(st, limit, offset, categorySlug, searchTerm) == ArticlePage(st, None, 0, categorySlug, searchTerm)
    ensures |GetArticles(st, limit, offset, categorySlug, searchTerm)| == GetArticleCount(st, categorySlug, searchTerm)
  {
  }

  /** With a non-zero limit the page is the `slice` of the sorted, filtered list. */
  lemma PagedPage(st: Store, limit: int, offset: int, categorySlug: Option<string>, searchTerm: Option<string>)
    requires limit != 0
    ensures ArticlePage(st, Some(limit), offset, categorySlug, searchTerm)
         == JsSlice(SortByDate(Selected(st, categorySlug, searchTerm)), offset, offset + limit)
  {
  }

  /** Whatever the limit, a page is a contiguous run of the sorted, filtered list. */
  lemma PageIsWindow(st: Store, limit: Option<int>, offset: int,
                     categorySlug: Option<string>, searchTerm: Option<string>)
    ensures exists lo :: WindowAt(SortByDate(Selected(st, categorySlug, searchTerm)), lo,
                                  ArticlePage(st, limit, offset, categorySlug, searchTerm))
  {
    var sorted := SortByDate(Selected(st, categorySlug, searchTerm));
    var page := ArticlePage(st, limit, offset, categorySlug, searchTerm);
    if Paged(limit) {
      assert page == JsSlice(sorted, offset, offset + limit.value);
    } else {
      assert page == sorted;
      assert WindowAt(sorted, 0, page);
    }
  }

  /** The enriched page lists filtered articles, newest first, each with its details attached. */
  lemma EnrichedPageFacts(st: Store, limit: Option<int>, offset: int,
                          categorySlug: Option<string>, searchTerm: Option<string>)
    ensures var r := EnrichAll(st, ArticlePage(st, limit, offset, categorySlug, searchTerm));
      && (forall d :: d in r ==> d == Enrich(st, d.article) && d.article in Selected(st, categorySlug, searchTerm))
      && (forall i, j :: 0 <= i < j < |r| ==> r[i].article.publishedAt >= r[j].article.publishedAt)
  {
    var page := ArticlePage(st, limit, offset, categorySlug, searchTerm);
    PageNewestFirst(st, limit, offset, categorySlug, searchTerm);
    PageFromSelected(st, limit, offset, categorySlug, searchTerm);
    EnrichAllArticles(st, page);
  }

  /** Whatever the limit and offset, the page lists newest first. */
  lemma PageNewestFirst(st: Store, limit: Option<int>, offset: int,
                        categorySlug: Option<string>, searchTerm: Option<string>)
    ensures NewestFirst(ArticlePage(st, limit, offset, categorySlug, searchTerm))
  {
    var sorted := SortByDate(Selected(st, categorySlug, searchTerm));
    var page := ArticlePage(st, limit, offset, categorySlug, searchTerm);
    PageIsWindow(st, limit, offset, categorySlug, searchTerm);
    var lo :| WindowAt(sorted, lo, page);
    WindowNewestFirst(sorted, lo, page);
  }


  /**
   * In a well-formed store, articles with the same timestamp are listed in
   * creation order, on every page.
   */
  lemma GetArticlesTiesByCreation(st: Store, limit: Option<int>, offset: int,
                                  categorySlug: Option<string>, searchTerm: Option<string>)
    requires WellFormed(st)
    ensures var r := GetArticles(st, limit, offset, categorySlug, searchTerm);
      forall i, j :: 0 <= i < j < |r| && r[i].article.publishedAt == r[j].article.publishedAt ==>
        r[i].article.id < r[j].article.id
  {
    var page := ArticlePage(st, limit, offset, categorySlug, searchTerm);
    PageTiesByCreation(st, limit, offset, categorySlug, searchTerm);
    var r := GetArticles(st, limit, offset, categorySlug, searchTerm);
    forall i, j | 0 <= i < j < |r| && r[i].article.publishedAt == r[j].article.publishedAt
      ensures r[i].article.id < r[j].article.id
    {
      assert r[i].article == page[i] && r[j].article == page[j];
    }
  }

  lemma PageTiesByCreation(st: Store, limit: Option<int>, offset: int,
                           categorySlug: Option<string>, searchTerm: Option<string>)
    requires WellFormed(st)
    ensures TiesByCreation(ArticlePage(st, limit, offset, categorySlug, searchTerm))
  {
    var selected := Selected(st, categorySlug, searchTerm);
    SelectedByCreation(st, categorySlug, searchTerm);
    var sorted := SortByDate(selected);
    SortByDateTies(selected);
    var page := ArticlePage(st, limit, offset, categorySlug, searchTerm);
    PageIsWindow(st, limit, offset, categorySlug, searchTerm);
    var lo :| WindowAt(sorted, lo, page);
    WindowTies(sorted, lo, page);
  }

  /** Both filters keep the listing's ascending id order. */
  lemma SelectedByCreation(st: Store, categorySlug: Option<string>, searchTerm: Option<string>)
    requires WellFormed(st)
    ensures IdsAscending(Selected(st, categorySlug, searchTerm))
  {
    var list := ArticleList(st);
    ArticleListByCreation(st);
    assert IdsAscending(list);
    var byCategory := ByCategory(st, categorySlug, list);
    if Given(categorySlug) && GetCategoryBySlug(st, categorySlug.value).Some? {
      var ids := ArticleIdsInCategory(st.articleCategories, GetCategoryBySlug(st, categorySlug.value).value.id);
      FilterIdsAscending(list, (a: Article) => a.id in ids);
    }
    if Given(searchTerm) {
      var search := Lower(searchTerm.value);
      FilterIdsAscending(byCategory, (a: Article) => Matches(a, search));
    }
  }

  /** Filtering keeps ids ascending. */
  lemma FilterIdsAscending(xs: seq<Article>, p: Article -> bool)
    requires IdsAscending(xs)
    ensures IdsAscending(Filter(xs, p))
  {
    var before := (a: Article, b: Article) => a.id < b.id;
    assert forall i, j :: 0 <= i < j < |xs| ==> before(xs[i], xs[j]);
    FilterKeepsOrder(xs, p, before);
    var r := Filter(xs, p);
    assert forall i, j :: 0 <= i < j < |r| ==> before(r[i], r[j]);
  }


  /**
   * The search step keeps exactly the articles the lower-cased term occurs in
   * (title, excerpt or content, lower-cased); an absent or empty term keeps all.
   */
  lemma BySearchExactly(searchTerm: Option<string>, xs: seq<Article>)
    ensures Given(searchTerm) ==> forall a :: a in BySearch(searchTerm, xs) <==>
      a in xs &&
      ((exists i :: OccursAt(Lower(a.title), Lower(searchTerm.value), i)) ||
       (exists i :: OccursAt(Lower(a.excerpt), Lower(searchTerm.value), i)) ||
       (exists i :: OccursAt(Lower(a.content), Lower(searchTerm.value), i)))
    ensures !Given(searchTerm) ==> BySearch(searchTerm, xs) == xs
  {
  }

  /**
   * The category step: when the slug names a category, it keeps exactly the
   * articles with a join record to that category; when the slug is absent,
   * empty or names no category, it keeps the list unchanged.
   */
  lemma ByCategoryExactly(st: Store, categorySlug: Option<string>, xs: seq<Article>)
    ensures Given(categorySlug) && GetCategoryBySlug(st, categorySlug.value).Some? ==>
      var c := GetCategoryBySlug(st, categorySlug.value).value;
      forall a :: a in ByCategory(st, categorySlug, xs) <==>
        a in xs && ArticleCategory(a.id, c.id) in st.articleCategories
    ensures !Given(categorySlug) || GetCategoryBySlug(st, categorySlug.value).None? ==>
      ByCategory(st, categorySlug, xs) == xs
  {
  }

  /**
   * Filter soundness and completeness for the whole pipeline: an article is
   * listed exactly when it is in the store, passes the category step and passes
   * the search step.
   */
  lemma SelectedExactly(st: Store, categorySlug: Option<string>, searchTerm: Option<string>, a: Article)
    ensures a in Selected(st, categorySlug, searchTerm) <==>
      && a in st.articles.Values
      && (Given(categorySlug) && GetCategoryBySlug(st, categorySlug.value).Some? ==>
            ArticleCategory(a.id, GetCategoryBySlug(st, categorySlug.value).value.id) in st.articleCategories)
      && (Given(searchTerm) ==> Matches(a, Lower(searchTerm.value)))
  {
    ByCategoryExactly(st, categorySlug, ArticleList(st));
  }

  /** Combining a category and a search term lists the intersection of what each lists alone. */
  lemma CombinedFiltersIntersect(st: Store, categorySlug: Option<string>, searchTerm: Option<string>, a: Article)
    ensures a in Selected(st, categorySlug, searchTerm) <==>
      a in Selected(st, categorySlug, None) && a in Selected(st, None, searchTerm)
  {
    SelectedExactly(st, categorySlug, searchTerm, a);
    SelectedExactly(st, categorySlug, None, a);
    SelectedExactly(st, None, searchTerm, a);
  }

  /** Every listed article matches the search term and, if the slug resolves, is linked to its category. */
  lemma GetArticlesSound(st: Store, limit: Option<int>, offset: int,
                         categorySlug: Option<string>, searchTerm: Option<string>)
    ensures forall d :: d in GetArticles(st, limit, offset, categorySlug, searchTerm) ==>
      && d.article in st.articles.Values
      && (Given(searchTerm) ==> Matches(d.article, Lower(searchTerm.value)))
      && (Given(categorySlug) && GetCategoryBySlug(st, categorySlug.value).Some? ==>
            ArticleCategory(d.article.id, GetCategoryBySlug(st, categorySlug.value).value.id) in st.articleCategories)
  {
    var r := GetArticles(st, limit, offset, categorySlug, searchTerm);
    var page := ArticlePage(st, limit, offset, categorySlug, searchTerm);
    PageFromSelected(st, limit, offset, categorySlug, searchTerm);
    forall d | d in r
      ensures d.article in st.articles.Values
      ensures Given(searchTerm) ==> Matches(d.article, Lower(searchTerm.value))
      ensures Given(categorySlug) && GetCategoryBySlug(st, categorySlug.value).Some? ==>
        ArticleCategory(d.article.id, GetCategoryBySlug(st, categorySlug.value).value.id) in st.articleCategories
    {
      var i :| 0 <= i < |r| && r[i] == d;
      assert d.article == page[i];
      assert page[i] in page;
      SelectedExactly(st, categorySlug, searchTerm, d.article);
    }
  }


  /** A term and its lower-cased form list the same articles: the search ignores ASCII case. */
  lemma SearchIgnoresCase(st: Store, limit: Option<int>, offset: int,
                          categorySlug: Option<string>, term: string)
    ensures GetArticles(st, limit, offset, categorySlug, Some(term))
         == GetArticles(st, limit, offset, categorySlug, Some(Lower(term)))
    ensures GetArticleCount(st, categorySlug, Some(term)) == GetArticleCount(st, categorySlug, Some(Lower(term)))
  {
    LowerIsIdempotent(term);
    assert Given(Some(term)) <==> Given(Some(Lower(term)));
  }


  /** In a well-formed store each featured article is listed once. */
  lemma FeaturedOnce(st: Store)
    requires WellFormed(st)
    ensures var r := GetFeaturedArticles(st);
      forall i, j :: 0 <= i < j < |r| ==> r[i].article.id != r[j].article.id
  {
    var list := ArticleList(st);
    var flagged := Filter(list, IsFeatured());
    var sorted := SortByDate(flagged);
    ArticleListByCreation(st);
    assert IdsAscending(list);
    FilterIdsAscending(list, IsFeatured());
    assert Distinct(flagged);
    PermutationKeepsDistinct(flagged, sorted);
    SortByDateMembers(flagged);
    var r := GetFeaturedArticles(st);
    EnrichAllArticles(st, sorted);
    forall i, j | 0 <= i < j < |r| ensures r[i].article.id != r[j].article.id {
      assert r[i].article == sorted[i] && r[j].article == sorted[j];
      assert sorted[i] in flagged && sorted[j] in flagged;
      assert sorted[i] == st.articles[sorted[i].id];
      assert sorted[j] == st.articles[sorted[j].id];
    }
  }
}
