/**
 * The related-article ranker: the other articles that share categories with a
 * given one, scored by the number of shared join records, ordered by score and
 * then recency, and cut to a limit.
 */
module Related {
  import opened Wrappers
  import opened Schema
  import opened Collections
  import opened Storage

  /** `categories.map(c => c.id)`: the ids of the source article's categories, read from the category records. */
  function SourceCategoryIds(st: Store, articleId: int): (r: seq<int>)
    ensures forall cid :: cid in r <==>
      exists j :: j in st.articleCategories && j.articleId == articleId
        && j.categoryId in st.categories && st.categories[j.categoryId].id == cid
  {
    var cats := GetArticleCategories(st, articleId);
    var r := seq(|cats|, i requires 0 <= i < |cats| => cats[i].id);
    CategoryIdsExactly(st, articleId, cats, r);
    r
  }

  lemma CategoryIdsExactly(st: Store, articleId: int, cats: seq<Category>, r: seq<int>)
    requires cats == GetArticleCategories(st, articleId)
    requires |r| == |cats| && forall i :: 0 <= i < |cats| ==> r[i] == cats[i].id
    ensures forall cid :: cid in r <==>
      exists j :: j in st.articleCategories && j.articleId == articleId
        && j.categoryId in st.categories && st.categories[j.categoryId].id == cid
  {
    forall cid | cid in r
      ensures exists j :: (j in st.articleCategories && j.articleId == articleId
        && j.categoryId in st.categories && st.categories[j.categoryId].id == cid)
    {
      var i :| 0 <= i < |r| && r[i] == cid;
      assert cats[i] in cats;
    }
    forall j | j in st.articleCategories && j.articleId == articleId && j.categoryId in st.categories
      ensures st.categories[j.categoryId].id in r
    {
      var c := st.categories[j.categoryId];
      assert c in cats;
      var i :| 0 <= i < |cats| && cats[i] == c;
      assert r[i] == c.id;
    }
  }

  /**
   * `categoryArticleIds`: one entry per join record that names one of
   * `categoryIds` and an article other than `articleId`, in join order.
   */
  function SharedJoinIds(joins: seq<ArticleCategory>, categoryIds: seq<int>, articleId: int): (r: seq<int>)
    ensures |r| <= |joins|
    ensures forall id :: id in r <==>
      (id != articleId && exists j :: j in joins && j.articleId == id && j.categoryId in categoryIds)
  {
    if |joins| == 0 then []
    else
      var j := joins[0];
      assert joins == [j] + joins[1..];
      (if j.categoryId in categoryIds && j.articleId != articleId then [j.articleId] else [])
        + SharedJoinIds(joins[1..], categoryIds, articleId)
  }

  /** The candidate list of the ranker for `articleId`: every shared join record, as an article id. */
  function Candidates(st: Store, articleId: int): seq<int> {
    SharedJoinIds(st.articleCategories, SourceCategoryIds(st, articleId), articleId)
  }

  /** `articleCounts[id]`: how many entries of the candidate list name `id`. */
  function Score(st: Store, articleId: int, id: int): nat {
    multiset(Candidates(st, articleId))[id]
  }

  /** The join records of `id` that name one of `categoryIds`. */
  function JoinsInto(joins: seq<ArticleCategory>, categoryIds: seq<int>, id: int): seq<ArticleCategory> {
    Filter(joins, (j: ArticleCategory) => j.articleId == id && j.categoryId in categoryIds)
  }

  /**
   * The count per candidate is the number of its join records into the source's
   * categories: a category linked twice counts twice.
   */
  lemma {:induction false} SharedJoinIdsCounts(joins: seq<ArticleCategory>, categoryIds: seq<int>, articleId: int, id: int)
    requires id != articleId
    ensures multiset(SharedJoinIds(joins, categoryIds, articleId))[id] == |JoinsInto(joins, categoryIds, id)|
  {
    if |joins| > 0 {
      var p := (j: ArticleCategory) => j.articleId == id && j.categoryId in categoryIds;
      SharedJoinIdsCounts(joins[1..], categoryIds, articleId, id);
      FilterCons(joins[0], joins[1..], p);
      assert joins == [joins[0]] + joins[1..];
    }
  }

  /** `Score` counts join records of the candidate into the source article's categories. */
  lemma ScoreCountsJoins(st: Store, articleId: int, id: int)
    requires id != articleId
    ensures Score(st, articleId, id) == |JoinsInto(st.articleCategories, SourceCategoryIds(st, articleId), id)|
  {
    SharedJoinIdsCounts(st.articleCategories, SourceCategoryIds(st, articleId), articleId, id);
  }

  // -------------------------------------------------------------- ranking

  /**
   * The comparator's strict part: `a` goes before `b` when it has the higher
   * count, or the same count and a later publish date. When either id names no
   * article the comparator reports a tie on equal counts.
   */
  predicate Precedes(hits: multiset<int>, articles: map<int, Article>, a: int, b: int) {
    || hits[a] > hits[b]
    || (hits[a] == hits[b] && a in articles && b in articles && articles[a].publishedAt > articles[b].publishedAt)
  }

  /** Places `x` ahead of the first id that does not strictly precede it (stable). */
  function InsertRanked(hits: multiset<int>, articles: map<int, Article>, x: int, ys: seq<int>): (r: seq<int>)
    ensures |r| == |ys| + 1
    ensures multiset(r) == multiset(ys) + multiset{x}
  {
    if |ys| == 0 then [x]
    else if !Precedes(hits, articles, ys[0], x) then [x] + ys
    else
      assert ys == [ys[0]] + ys[1..];
      [ys[0]] + InsertRanked(hits, articles, x, ys[1..])
  }

  /** Counts never increase along the list. */
  predicate ByScore(hits: multiset<int>, xs: seq<int>) {
    forall i, j :: 0 <= i < j < |xs| ==> hits[xs[i]] >= hits[xs[j]]
  }

  /** Counts never increase, and on equal counts publish dates never increase. */
  predicate ByScoreThenDate(hits: multiset<int>, articles: map<int, Article>, xs: seq<int>) {
    forall i, j :: 0 <= i < j < |xs| ==> RankedBefore(hits, articles, xs[i], xs[j])
  }

  /** Both ids name articles, and `a` has the higher count, or the same count and a publish date no earlier. */
  predicate RankedBefore(hits: multiset<int>, articles: map<int, Article>, a: int, b: int) {
    && a in articles && b in articles
    && (hits[a] > hits[b] || (hits[a] == hits[b] && articles[a].publishedAt >= articles[b].publishedAt))
  }

  lemma RankedBeforeTransitive(hits: multiset<int>, articles: map<int, Article>, a: int, b: int, c: int)
    requires RankedBefore(hits, articles, a, b) && RankedBefore(hits, articles, b, c)
    ensures RankedBefore(hits, articles, a, c)
  {
  }

  /** Every id names an article. */
  predicate AllPresent(articles: map<int, Article>, xs: seq<int>) {
    forall i :: 0 <= i < |xs| ==> xs[i] in articles
  }

  /** No id in the list counts more than `bound`. */
  predicate ScoresAtMost(hits: multiset<int>, xs: seq<int>, bound: int) {
    forall i :: 0 <= i < |xs| ==> hits[xs[i]] <= bound
  }

  lemma {:induction false} InsertRankedBounded(hits: multiset<int>, articles: map<int, Article>, x: int, ys: seq<int>, top: int)
    requires hits[x] <= hits[top] && ScoresAtMost(hits, ys, hits[top])
    ensures ScoresAtMost(hits, InsertRanked(hits, articles, x, ys), hits[top])
  {
    var r := InsertRanked(hits, articles, x, ys);
    if |ys| == 0 {
    } else if !Precedes(hits, articles, ys[0], x) {
      assert r == [x] + ys;
      forall i | 0 <= i < |r| ensures hits[r[i]] <= hits[top] {
        if i == 0 {
          assert r[i] == x;
        } else {
          assert r[i] == ys[i - 1];
        }
      }
    } else {
      var rest := InsertRanked(hits, articles, x, ys[1..]);
      InsertRankedBounded(hits, articles, x, ys[1..], top);
      assert r == [ys[0]] + rest;
      forall i | 0 <= i < |r| ensures hits[r[i]] <= hits[top] {
        if i == 0 {
          assert r[i] == ys[0];
        } else {
          assert r[i] == rest[i - 1];
        }
      }
    }
  }

  /** Insertion keeps the counts in non-increasing order, whatever the dates. */
  lemma {:induction false} InsertRankedByScore(hits: multiset<int>, articles: map<int, Article>, x: int, ys: seq<int>)
    requires ByScore(hits, ys)
    ensures ByScore(hits, InsertRanked(hits, articles, x, ys))
  {
    if |ys| == 0 {
      assert InsertRanked(hits, articles, x, ys) == [x];
    } else if !Precedes(hits, articles, ys[0], x) {
      assert InsertRanked(hits, articles, x, ys) == [x] + ys;
      assert ScoresAtMost(hits, ys, hits[x]) by {
        forall i | 0 <= i < |ys| ensures hits[ys[i]] <= hits[x] {
          assert hits[ys[i]] <= hits[ys[0]];
        }
      }
      ConsByScore(hits, x, ys);
    } else {
      var rest := InsertRanked(hits, articles, x, ys[1..]);
      assert InsertRanked(hits, articles, x, ys) == [ys[0]] + rest;
      InsertRankedByScore(hits, articles, x, ys[1..]);
      assert ScoresAtMost(hits, ys[1..], hits[ys[0]]) by {
        forall i | 0 <= i < |ys[1..]| ensures hits[ys[1..][i]] <= hits[ys[0]] {
          assert ys[1..][i] == ys[i + 1];
        }
      }
      InsertRankedBounded(hits, articles, x, ys[1..], ys[0]);
      ConsByScore(hits, ys[0], rest);
    }
  }

  /** An id counted at least as often as everything in a list ranked by count can go in front of it. */
  lemma ConsByScore(hits: multiset<int>, y: int, rest: seq<int>)
    requires ByScore(hits, rest) && ScoresAtMost(hits, rest, hits[y])
    ensures ByScore(hits, [y] + rest)
  {
    var r := [y] + rest;
    forall i, j | 0 <= i < j < |r| ensures hits[r[i]] >= hits[r[j]] {
      assert r[j] == rest[j - 1];
      if i > 0 {
        assert r[i] == rest[i - 1];
      }
    }
  }

  lemma {:induction false} InsertRankedBelow(hits: multiset<int>, articles: map<int, Article>, x: int, ys: seq<int>, top: int)
    requires top in articles && x in articles && AllPresent(articles, ys)
    requires !Precedes(hits, articles, x, top)
    requires forall i :: 0 <= i < |ys| ==> !Precedes(hits, articles, ys[i], top)
    ensures var r := InsertRanked(hits, articles, x, ys);
      AllPresent(articles, r) && forall i :: 0 <= i < |r| ==> !Precedes(hits, articles, r[i], top)
  {
    if |ys| > 0 && Precedes(hits, articles, ys[0], x) {
      InsertRankedBelow(hits, articles, x, ys[1..], top);
    }
  }

  /** When every id names an article, insertion keeps the (count, date) order. */
  lemma {:induction false} InsertRankedByScoreThenDate(hits: multiset<int>, articles: map<int, Article>, x: int, ys: seq<int>)
    requires x in articles && AllPresent(articles, ys)
    requires ByScoreThenDate(hits, articles, ys)
    ensures ByScoreThenDate(hits, articles, InsertRanked(hits, articles, x, ys))
  {
    var r := InsertRanked(hits, articles, x, ys);
    if |ys| == 0 {
    } else if !Precedes(hits, articles, ys[0], x) {
      assert r == [x] + ys;
      assert RankedBefore(hits, articles, x, ys[0]);
      forall i, j | 0 <= i < j < |r| ensures RankedBefore(hits, articles, r[i], r[j]) {
        if i == 0 && j > 1 {
          RankedBeforeTransitive(hits, articles, x, ys[0], ys[j - 1]);
        } else if i > 0 {
          assert r[i] == ys[i - 1] && r[j] == ys[j - 1];
        }
      }
    } else {
      var rest := InsertRanked(hits, articles, x, ys[1..]);
      InsertRankedByScoreThenDate(hits, articles, x, ys[1..]);
      InsertRankedBelow(hits, articles, x, ys[1..], ys[0]);
      assert r == [ys[0]] + rest;
      forall i, j | 0 <= i < j < |r| ensures RankedBefore(hits, articles, r[i], r[j]) {
        if i == 0 {
          assert r[j] == rest[j - 1];
          assert !Precedes(hits, articles, rest[j - 1], ys[0]);
        } else {
          assert r[i] == rest[i - 1] && r[j] == rest[j - 1];
        }
      }
    }
  }

  /**
   * The ranking sort performed by a stable sort (an insertion sort from the
   * back). It always orders by count; when every id names an article it also
   * orders equal counts newest first.
   */
  function RankSort(hits: multiset<int>, articles: map<int, Article>, xs: seq<int>): (r: seq<int>)
    ensures |r| == |xs|
    ensures multiset(r) == multiset(xs)
    ensures ByScore(hits, r)
  {
    if |xs| == 0 then []
    else
      assert xs == [xs[0]] + xs[1..];
      var sorted := RankSort(hits, articles, xs[1..]);
      InsertRankedByScore(hits, articles, xs[0], sorted);
      InsertRanked(hits, articles, xs[0], sorted)
  }

  /** Ranking a non-empty list inserts its head into the ranked tail. */
  lemma RankSortCons(hits: multiset<int>, articles: map<int, Article>, xs: seq<int>)
    requires |xs| > 0
    ensures xs == [xs[0]] + xs[1..]
    ensures RankSort(hits, articles, xs) == InsertRanked(hits, articles, xs[0], RankSort(hits, articles, xs[1..]))
  {
    assert xs == [xs[0]] + xs[1..];
  }

  /** When every id names an article, the ranking also orders equal counts newest first. */
  lemma {:induction false} RankSortByScoreThenDate(hits: multiset<int>, articles: map<int, Article>, xs: seq<int>)
    requires AllPresent(articles, xs)
    ensures ByScoreThenDate(hits, articles, RankSort(hits, articles, xs))
  {
    if |xs| > 0 {
      var sorted := RankSort(hits, articles, xs[1..]);
      RankSortByScoreThenDate(hits, articles, xs[1..]);
      assert xs == [xs[0]] + xs[1..];
      forall i | 0 <= i < |sorted| ensures sorted[i] in articles {
        assert sorted[i] in multiset(xs[1..]);
      }
      InsertRankedByScoreThenDate(hits, articles, xs[0], sorted);
    }
  }

  /**
   * The test "a stored article with count `c` published at `t`": the ids the
   * comparator ties with one another.
   */
  function TiedAt(hits: multiset<int>, articles: map<int, Article>, c: int, t: int): int -> bool {
    (id: int) => hits[id] == c && id in articles && articles[id].publishedAt == t
  }

  lemma {:induction false} InsertRankedStable(hits: multiset<int>, articles: map<int, Article>, x: int, ys: seq<int>, c: int, t: int)
    ensures Filter(InsertRanked(hits, articles, x, ys), TiedAt(hits, articles, c, t))
         == Filter([x] + ys, TiedAt(hits, articles, c, t))
  {
    if |ys| > 0 && Precedes(hits, articles, ys[0], x) {
      var y, rest := ys[0], ys[1..];
      assert ys == [y] + rest;
      var inserted := InsertRanked(hits, articles, x, rest);
      assert InsertRanked(hits, articles, x, ys) == [y] + inserted;
      InsertRankedStable(hits, articles, x, rest, c, t);
      // y strictly precedes x, so the two are not tied and at most one survives the filter
      FilterPastFront(y, x, rest, inserted, TiedAt(hits, articles, c, t));
    } else if |ys| > 0 {
      assert InsertRanked(hits, articles, x, ys) == [x] + ys;
    }
  }

  /**
   * The ranking is stable: ids the comparator ties (equal count, both stored,
   * equal publish date) keep the order they had before sorting.
   */
  lemma {:induction false} RankSortStable(hits: multiset<int>, articles: map<int, Article>, xs: seq<int>, c: int, t: int)
    ensures Filter(RankSort(hits, articles, xs), TiedAt(hits, articles, c, t))
         == Filter(xs, TiedAt(hits, articles, c, t))
  {
    if |xs| > 0 {
      var x, tail := xs[0], xs[1..];
      var sorted := RankSort(hits, articles, tail);
      RankSortCons(hits, articles, xs);
      InsertRankedStable(hits, articles, x, sorted, c, t);
      RankSortStable(hits, articles, tail, c, t);
      FilterSameTail(x, sorted, tail, TiedAt(hits, articles, c, t));
    }
  }

  /** Ranking a list without repeats gives a list without repeats. */
  lemma RankSortDistinct(hits: multiset<int>, articles: map<int, Article>, xs: seq<int>)
    requires Distinct(xs)
    ensures Distinct(RankSort(hits, articles, xs))
  {
    PermutationKeepsDistinct(xs, RankSort(hits, articles, xs));
  }

  // ----------------------------------------------------------- operation

  /**
   * The ids `getRelatedArticles` fetches: none for an unknown article; otherwise
   * the distinct candidates, ranked, cut with `slice(0, limit)`.
   */
  function RelatedIds(st: Store, articleId: int, limit: int): (r: seq<int>)
    ensures 0 <= limit ==> |r| <= limit
    ensures articleId !in st.articles ==> r == []
    ensures articleId in st.articles && 0 <= limit ==>
      var candidates := Candidates(st, articleId);
      var ranked := RankSort(multiset(candidates), st.articles, Dedup(candidates));
      |r| == Min(limit, |Dedup(candidates)|) && r == ranked[..|r|]
  {
    if articleId !in st.articles then []
    else
      var candidates := Candidates(st, articleId);
      JsSlice(RankSort(multiset(candidates), st.articles, Dedup(candidates)), 0, limit)
  }

  /** The test `id` names a stored article. */
  function Stored(st: Store): int -> bool {
    (id: int) => id in st.articles
  }

  /** The ids that name an article, in order. */
  function PresentIds(st: Store, ids: seq<int>): (r: seq<int>)
    ensures forall i :: 0 <= i < |r| ==> r[i] in st.articles
  {
    var r := Filter(ids, Stored(st));
    assert forall i :: 0 <= i < |r| ==> r[i] in st.articles by {
      forall i | 0 <= i < |r| ensures r[i] in st.articles {
        assert r[i] in r;
      }
    }
    r
  }

  /** `Promise.all(ids.map(getArticle))` followed by `filter(Boolean)`. */
  function ArticlesFor(st: Store, ids: seq<int>): (r: seq<ArticleWithDetails>)
    ensures |r| == |PresentIds(st, ids)| <= |ids|
    ensures forall i :: 0 <= i < |r| ==> r[i] == Enrich(st, st.articles[PresentIds(st, ids)[i]])
  {
    var present := PresentIds(st, ids);
    seq(|present|, i requires 0 <= i < |present| => Enrich(st, st.articles[present[i]]))
  }

  /** `getRelatedArticles(articleId, limit)`. */
  function GetRelatedArticles(st: Store, articleId: int, limit: int): (r: seq<ArticleWithDetails>)
    ensures articleId !in st.articles ==> r == []
    ensures 0 <= limit ==> |r| <= limit
    ensures forall d :: d in r ==> d.article in st.articles.Values && d == Enrich(st, d.article)
    ensures JoinsReferenceArticles(st) && articleId in st.articles && 0 <= limit ==>
      |r| == Min(limit, |Dedup(Candidates(st, articleId))|)
  {
    assert JoinsReferenceArticles(st) && articleId in st.articles && 0 <= limit ==>
      PresentIds(st, RelatedIds(st, articleId, limit)) == RelatedIds(st, articleId, limit) by {
      if JoinsReferenceArticles(st) && articleId in st.articles && 0 <= limit {
        RelatedIdsAllStored(st, articleId, limit);
      }
    }
    ArticlesForStored(st, RelatedIds(st, articleId, limit));
    match GetArticle(st, articleId)
    case None => []
    case Some(_) => ArticlesFor(st, RelatedIds(st, articleId, limit))
  }

  // --------------------------------------------------------------- lemmas

  /**
   * Article `other` has a join record to a category that the source article
   * `articleId` is also linked to, and that category exists.
   */
  ghost predicate SharesCategory(st: Store, articleId: int, other: int) {
    exists j1, j2 :: j1 in st.articleCategories && j2 in st.articleCategories
      && j1.articleId == other && j2.articleId == articleId
      && j2.categoryId in st.categories && st.categories[j2.categoryId].id == j1.categoryId
  }

  /**
   * The ranked ids: no repeats, never the source, at most `limit` of them for a
   * non-negative limit, each sharing a category with the source, counts non-increasing.
   */
  lemma RelatedIdsFacts(st: Store, articleId: int, limit: int)
    ensures var ids := RelatedIds(st, articleId, limit);
      && Distinct(ids)
      && articleId !in ids
      && (0 <= limit ==> |ids| <= limit)
      && (forall id :: id in ids ==> SharesCategory(st, articleId, id))
      && ByScore(multiset(Candidates(st, articleId)), ids)
  {
    if articleId in st.articles {
      var candidates := Candidates(st, articleId);
      var hits := multiset(candidates);
      var ranked := RankSort(hits, st.articles, Dedup(candidates));
      var ids := RelatedIds(st, articleId, limit);
      RankSortDistinct(hits, st.articles, Dedup(candidates));
      var lo :| WindowAt(ranked, lo, ids);
      WindowKeepsOrder(ranked, lo, ids, (a: int, b: int) => a != b);
      WindowKeepsOrder(ranked, lo, ids, (a: int, b: int) => hits[a] >= hits[b]);
      WindowWithin(ranked, lo, ids);
      forall id | id in ids ensures id in candidates {
        assert id in multiset(ranked);
      }
    }
  }

  /** On a well-formed store each fetched article carries the id it was fetched by. */
  lemma ArticlesForIds(st: Store, ids: seq<int>)
    requires WellFormed(st)
    ensures var r := ArticlesFor(st, ids);
      forall i :: 0 <= i < |r| ==> r[i].article.id == PresentIds(st, ids)[i] && r[i].article.id in ids
  {
    var present := PresentIds(st, ids);
    var r := ArticlesFor(st, ids);
    forall i | 0 <= i < |r| ensures r[i].article.id == present[i] && r[i].article.id in ids {
      assert present[i] in st.articles;
      assert r[i].article == st.articles[present[i]];
      assert present[i] in present;
    }
  }


  /** A relation between earlier and later ids carries over to the fetched articles (well-formed store). */
  lemma ArticlesForKeepsOrder(st: Store, ids: seq<int>, before: (int, int) -> bool)
    requires WellFormed(st)
    requires forall i, j :: 0 <= i < j < |ids| ==> before(ids[i], ids[j])
    ensures var r := ArticlesFor(st, ids);
      forall i, j :: 0 <= i < j < |r| ==> before(r[i].article.id, r[j].article.id)
  {
    var present := PresentIds(st, ids);
    var r := ArticlesFor(st, ids);
    ArticlesForIds(st, ids);
    FilterKeepsOrder(ids, Stored(st), before);
    assert present == Filter(ids, Stored(st));
    forall i, j | 0 <= i < j < |r| ensures before(r[i].article.id, r[j].article.id) {
      assert r[i].article.id == present[i] && r[j].article.id == present[j];
    }
  }

  /** The related list never holds the source article, nor any article twice (well-formed store). */
  lemma RelatedExcludesSourceAndRepeats(st: Store, articleId: int, limit: int)
    requires WellFormed(st)
    ensures var r := GetRelatedArticles(st, articleId, limit);
      && (forall i :: 0 <= i < |r| ==> r[i].article.id != articleId)
      && (forall i, j :: 0 <= i < j < |r| ==> r[i].article.id != r[j].article.id)
  {
    if articleId in st.articles {
      var ids := RelatedIds(st, articleId, limit);
      var r := GetRelatedArticles(st, articleId, limit);
      assert r == ArticlesFor(st, ids);
      RelatedIdsFacts(st, articleId, limit);
      ArticlesForIds(st, ids);
      var before := (a: int, b: int) => a != b;
      assert forall i, j :: 0 <= i < j < |ids| ==> before(ids[i], ids[j]);
      ArticlesForKeepsOrder(st, ids, before);
      forall i | 0 <= i < |r| ensures r[i].article.id != articleId {
        assert r[i].article.id in ids;
      }
    }
  }

  /** Every related article shares a category with the source (well-formed store). */
  lemma RelatedShareCategory(st: Store, articleId: int, limit: int)
    requires WellFormed(st)
    ensures var r := GetRelatedArticles(st, articleId, limit);
      forall i :: 0 <= i < |r| ==> SharesCategory(st, articleId, r[i].article.id)
  {
    if articleId in st.articles {
      var ids := RelatedIds(st, articleId, limit);
      RelatedIdsFacts(st, articleId, limit);
      ArticlesForIds(st, ids);
    }
  }

  /** Shared counts never increase along the related list (well-formed store). */
  lemma RelatedByScore(st: Store, articleId: int, limit: int)
    requires WellFormed(st)
    ensures var r := GetRelatedArticles(st, articleId, limit);
      forall i, j :: 0 <= i < j < |r| ==>
        Score(st, articleId, r[i].article.id) >= Score(st, articleId, r[j].article.id)
  {
    if articleId in st.articles {
      var ids := RelatedIds(st, articleId, limit);
      var hits := multiset(Candidates(st, articleId));
      var r := GetRelatedArticles(st, articleId, limit);
      assert r == ArticlesFor(st, ids);
      RelatedIdsFacts(st, articleId, limit);
      var before := (a: int, b: int) => hits[a] >= hits[b];
      assert forall i, j :: 0 <= i < j < |ids| ==> before(ids[i], ids[j]);
      ArticlesForKeepsOrder(st, ids, before);
      forall i, j | 0 <= i < j < |r|
        ensures Score(st, articleId, r[i].article.id) >= Score(st, articleId, r[j].article.id)
      {
        assert before(r[i].article.id, r[j].article.id);
      }
    }
  }

  /** Every join record names an existing article. */
  predicate JoinsReferenceArticles(st: Store) {
    forall j :: j in st.articleCategories ==> j.articleId in st.articles
  }

  /**
   * When every join record names an existing article, the comparator is a
   * consistent order and the related list is ordered by shared count, then
   * newest first.
   */
  lemma RelatedArticlesRanked(st: Store, articleId: int, limit: int)
    requires WellFormed(st) && JoinsReferenceArticles(st)
    ensures var r := GetRelatedArticles(st, articleId, limit);
      forall i, j :: 0 <= i < j < |r| ==>
        || Score(st, articleId, r[i].article.id) > Score(st, articleId, r[j].article.id)
        || (Score(st, articleId, r[i].article.id) == Score(st, articleId, r[j].article.id)
            && r[i].article.publishedAt >= r[j].article.publishedAt)
  {
    if articleId in st.articles {
      var hits := multiset(Candidates(st, articleId));
      var ids := RelatedIds(st, articleId, limit);
      RelatedIdsRanked(st, articleId, limit);
      FilterAll(ids, Stored(st));
      var r := GetRelatedArticles(st, articleId, limit);
      forall i, j | 0 <= i < j < |r|
        ensures || hits[r[i].article.id] > hits[r[j].article.id]
                || (hits[r[i].article.id] == hits[r[j].article.id]
                    && r[i].article.publishedAt >= r[j].article.publishedAt)
      {
        assert r[i].article == st.articles[ids[i]] && r[j].article == st.articles[ids[j]];
        assert RankedBefore(hits, st.articles, ids[i], ids[j]);
      }
    }
  }

  /** When every join record names an article, the ranked ids name articles and are in (count, date) order. */
  lemma RelatedIdsRanked(st: Store, articleId: int, limit: int)
    requires WellFormed(st) && JoinsReferenceArticles(st) && articleId in st.articles
    ensures var ids := RelatedIds(st, articleId, limit);
      && (forall i :: 0 <= i < |ids| ==> Stored(st)(ids[i]))
      && ByScoreThenDate(multiset(Candidates(st, articleId)), st.articles, ids)
  {
    var candidates := Candidates(st, articleId);
    var hits := multiset(candidates);
    var ranked := RankSort(hits, st.articles, Dedup(candidates));
    RankedCandidates(st, articleId);
    var ids := RelatedIds(st, articleId, limit);
    assert ids == JsSlice(ranked, 0, limit);
    var lo :| WindowAt(ranked, lo, ids);
    WindowKeepsOrder(ranked, lo, ids, (a: int, b: int) => RankedBefore(hits, st.articles, a, b));
    forall i | 0 <= i < |ids| ensures Stored(st)(ids[i]) {
      assert ids[i] == ranked[lo + i];
    }
  }

  /** When every join record names an article, the full ranking names articles only and is in (count, date) order. */
  lemma RankedCandidates(st: Store, articleId: int)
    requires JoinsReferenceArticles(st)
    ensures var candidates := Candidates(st, articleId);
      var ranked := RankSort(multiset(candidates), st.articles, Dedup(candidates));
      AllPresent(st.articles, ranked) && ByScoreThenDate(multiset(candidates), st.articles, ranked)
  {
    var candidates := Candidates(st, articleId);
    var deduped := Dedup(candidates);
    var ranked := RankSort(multiset(candidates), st.articles, deduped);
    forall i | 0 <= i < |deduped| ensures deduped[i] in st.articles {
      assert deduped[i] in deduped;
      assert deduped[i] in candidates;
    }
    RankSortByScoreThenDate(multiset(candidates), st.articles, deduped);
    forall i | 0 <= i < |ranked| ensures ranked[i] in st.articles {
      assert ranked[i] in multiset(deduped);
    }
  }


  /**
   * Nothing cut outranks anything kept: when every join record names an
   * article, each kept id is ranked before every candidate left out.
   */
  lemma RelatedIdsOutrankTheRest(st: Store, articleId: int, limit: int)
    requires JoinsReferenceArticles(st) && articleId in st.articles && 0 <= limit
    ensures var candidates := Candidates(st, articleId);
      var ids := RelatedIds(st, articleId, limit);
      forall id, other :: id in ids && other in candidates && other !in ids ==>
        RankedBefore(multiset(candidates), st.articles, id, other)
  {
    var candidates := Candidates(st, articleId);
    var hits := multiset(candidates);
    var ranked := RankSort(hits, st.articles, Dedup(candidates));
    var ids := RelatedIds(st, articleId, limit);
    RankedCandidates(st, articleId);
    assert forall k :: 0 <= k < |ids| ==> ranked[k] in ids by {
      forall k | 0 <= k < |ids| ensures ranked[k] in ids {
        assert ids[k] == ranked[k];
      }
    }
    forall id, other | id in ids && other in candidates && other !in ids
      ensures RankedBefore(hits, st.articles, id, other)
    {
      var i :| 0 <= i < |ids| && ids[i] == id;
      assert other in Dedup(candidates);
      assert other in multiset(ranked);
      var k :| 0 <= k < |ranked| && ranked[k] == other;
      assert |ids| <= k;
      assert ranked[i] == id;
    }
  }

  /** When every join record names an article, fetching the related ids loses none of them. */
  lemma RelatedIdsAllStored(st: Store, articleId: int, limit: int)
    requires JoinsReferenceArticles(st) && articleId in st.articles && 0 <= limit
    ensures PresentIds(st, RelatedIds(st, articleId, limit)) == RelatedIds(st, articleId, limit)
  {
    var candidates := Candidates(st, articleId);
    var ranked := RankSort(multiset(candidates), st.articles, Dedup(candidates));
    var ids := RelatedIds(st, articleId, limit);
    RankedCandidates(st, articleId);
    forall i | 0 <= i < |ids| ensures Stored(st)(ids[i]) {
      assert ids[i] == ranked[i];
    }
    FilterAll(ids, Stored(st));
  }

  /** Every fetched entry is a stored article with its author and categories attached. */
  lemma ArticlesForStored(st: Store, ids: seq<int>)
    ensures forall d :: d in ArticlesFor(st, ids) ==> d.article in st.articles.Values && d == Enrich(st, d.article)
  {
    var r, present := ArticlesFor(st, ids), PresentIds(st, ids);
    forall d | d in r ensures d.article in st.articles.Values && d == Enrich(st, d.article) {
      var i :| 0 <= i < |r| && r[i] == d;
      assert present[i] in st.articles;
    }
  }

  /**
   * When every join record names an article, the related list has exactly
   * `min(limit, n)` entries for a non-negative limit, `n` being the number of
   * distinct candidates: nothing is lost when fetching.
   */
  lemma RelatedLength(st: Store, articleId: int, limit: int)
    requires JoinsReferenceArticles(st) && articleId in st.articles && 0 <= limit
    ensures |GetRelatedArticles(st, articleId, limit)| == Min(limit, |Dedup(Candidates(st, articleId))|)
  {
  }

  /** The candidate list names exactly the other articles that share a category with the source. */
  lemma CandidatesExactly(st: Store, articleId: int, k: int)
    ensures k in Candidates(st, articleId) <==> k != articleId && SharesCategory(st, articleId, k)
  {
    if k != articleId && SharesCategory(st, articleId, k) {
      var j1, j2 :| j1 in st.articleCategories && j2 in st.articleCategories
        && j1.articleId == k && j2.articleId == articleId
        && j2.categoryId in st.categories && st.categories[j2.categoryId].id == j1.categoryId;
      assert j1.categoryId in SourceCategoryIds(st, articleId);
    }
  }

  /**
   * With a limit at least the number of join records, every other article
   * sharing a category with the source is listed.
   */
  lemma RelatedComplete(st: Store, articleId: int, limit: int)
    requires articleId in st.articles
    requires limit >= |st.articleCategories|
    ensures forall k :: k in st.articles && k != articleId && SharesCategory(st, articleId, k) ==>
      exists d :: d in GetRelatedArticles(st, articleId, limit) && d.article == st.articles[k]
  {
    var ids := RelatedIds(st, articleId, limit);
    var r := GetRelatedArticles(st, articleId, limit);
    var present := PresentIds(st, ids);
    assert r == ArticlesFor(st, ids);
    forall k | k in st.articles && k != articleId && SharesCategory(st, articleId, k)
      ensures exists d :: d in r && d.article == st.articles[k]
    {
      RelatedIdsComplete(st, articleId, limit, k);
      assert k in present;
      var i :| 0 <= i < |present| && present[i] == k;
      assert r[i] in r;
    }
  }

  /** With a limit at least the number of join records nothing is cut: every article sharing a category is ranked. */
  lemma RelatedIdsComplete(st: Store, articleId: int, limit: int, k: int)
    requires articleId in st.articles
    requires limit >= |st.articleCategories|
    requires k != articleId && SharesCategory(st, articleId, k)
    ensures k in RelatedIds(st, articleId, limit)
  {
    var candidates := Candidates(st, articleId);
    var ranked := RankSort(multiset(candidates), st.articles, Dedup(candidates));
    assert RelatedIds(st, articleId, limit) == JsSlice(ranked, 0, limit);
    assert JsSlice(ranked, 0, limit) == ranked;
    CandidatesExactly(st, articleId, k);
    assert k in multiset(ranked);
  }

  /**
   * The score counts join records, not distinct categories: appending a join
   * record from another article into one of the source's categories raises that
   * article's score by one, even when the very same record is already stored.
   */
  lemma DuplicateJoinInflatesScore(st: Store, articleId: int, ac: ArticleCategory)
    requires ac.articleId != articleId
    requires ac.categoryId in SourceCategoryIds(st, articleId)
    ensures var (st', _) := AddArticleCategory(st, ac);
      && Score(st', articleId, ac.articleId) == Score(st, articleId, ac.articleId) + 1
      && (ac in st.articleCategories ==> (set j | j in st'.articleCategories) == (set j | j in st.articleCategories))
  {
    var (st', _) := AddArticleCategory(st, ac);
    LinkedCategoriesIgnoresOthers(st.articleCategories, ac, st.categories, articleId);
    assert SourceCategoryIds(st', articleId) == SourceCategoryIds(st, articleId);
    var cats := SourceCategoryIds(st, articleId);
    ScoreCountsJoins(st, articleId, ac.articleId);
    ScoreCountsJoins(st', articleId, ac.articleId);
    var p := (j: ArticleCategory) => j.articleId == ac.articleId && j.categoryId in cats;
    FilterAppend(st.articleCategories, [ac], p);
    SingletonFilter(ac, p);
  }

  /** A join record of another article does not change an article's category list. */
  lemma {:induction false} LinkedCategoriesIgnoresOthers(joins: seq<ArticleCategory>, ac: ArticleCategory,
                                                         categories: map<int, Category>, articleId: int)
    requires ac.articleId != articleId
    ensures LinkedCategories(joins + [ac], categories, articleId) == LinkedCategories(joins, categories, articleId)
  {
    if |joins| == 0 {
      assert LinkedCategories([ac][1..], categories, articleId) == [];
    } else {
      assert (joins + [ac])[1..] == joins[1..] + [ac];
      LinkedCategoriesIgnoresOthers(joins[1..], ac, categories, articleId);
    }
  }
}
