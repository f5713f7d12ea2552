# Blog article engine: a Dafny model

This project models the in-memory storage engine of a blog server and the
pagination layer its HTTP handlers put on top. The engine is `MemStorage` in
`server/storage.ts`; the handlers are in `server/routes.ts`. The model covers:

- the store: users, categories, articles and the list of article/category
  join records, with their three id counters;
- lookups by id, username and slug, and the `create*` and `addArticleCategory` operations;
- the article listing `getArticles`. It filters by category slug, then by a
  case-insensitive search term, sorts newest first, and cuts an
  `[offset, offset + limit)` page.
- `getArticleCount` and `getFeaturedArticles`;
- the related-article ranker `getRelatedArticles`. It scores other articles by
  the join records they share with the source's categories, ranks them by
  score then by recency, and truncates to `limit`.
- the `/articles` handler's page/limit defaults, offset and `totalPages`;
- the not-found decision of `/articles/:slug` and `/articles/:slug/related`.

Everything is a pure function over an immutable `Store` value.

Files:

- `wrappers.dfy`: `Option`.
- `text.dfy`: ASCII lower-casing and `String.prototype.includes`.
- `collections.dfy`: the JavaScript array and map behaviour the engine relies on:
  - `filter`;
  - `slice`, with negative and out-of-range bounds;
  - `[...new Set(xs)]`;
  - `find`;
  - iteration of a `Map` in insertion order.
- `schema.dfy`: the record shapes of `shared/schema.ts`.
- `storage.dfy`: the store, lookups, creation and enrichment.
- `query.dfy`: listing, count and featured list.
- `related.dfy`: the related-article ranker.
- `routes.dfy`: the handlers' arithmetic and outcomes.

Modelling choices that follow the code:

- **Map iteration order.** A `Map` iterates in insertion order. Ids are
  handed out by ever-increasing counters and nothing is deleted, so insertion
  order is ascending id order. `Values` lists a map's values by ascending key.
- **Stable sorts.** `Array.prototype.sort` is stable, so both sorts are
  stable insertion sorts.
  - The listing sort places an article ahead of the first one that is not newer.
  - The related sort places an id ahead of the first id that does not
    strictly precede it.
- **Truthiness.** `if (limit)`, `if (categorySlug)` and `if (searchTerm)` treat
  0 and the empty string like an absent argument. In `parseInt(x) || d`, a
  NaN or 0 takes the default. A parameter is an `Option`, and `None` stands
  for an absent value or NaN.
- **Unresolvable category slug.** A slug that names no category applies no
  category filter at all (`server/storage.ts:571-572`). The model keeps this;
  it does not return an empty listing.
- **Missing author.** The enriched record's author is `author!`, the raw
  lookup. When the author id is dangling it is `undefined`, so the model
  carries it as `Option<User>` rather than inventing a placeholder author.
- **Related score.** The score counts join records, not distinct categories
  (`server/storage.ts:731-739`). A duplicated join record raises the score
  again.
- **Ranking when an id is missing.** When either id names no stored article,
  the related comparator returns the count difference alone. With dangling
  join records, equal counts can then leave dates out of order.
  `Related.RelatedByScore` holds for every well-formed store, whatever its
  join records name. The date tie-break
  (`Related.RelatedArticlesRanked`) is stated for stores whose join records
  all name existing articles.
- **Negative `page`, `limit` and `offset`.** These are not rejected by the
  code. They flow into `slice` with JavaScript's negative-index rules, which
  `Collections.JsSlice` models exactly.

## Model

| member | source | states |
|---|---|---|
| Text.Lower | server/storage.ts:583 | the lower-cased string has the same length, and each character is the lower-case form of the one at the same position |
| Text.Includes | server/storage.ts:584-586 | `includes` holds exactly when the needle occurs as a contiguous run at some position of the text; so a match needs a needle no longer than the text, and the empty needle always matches |
| Text.LowerIsIdempotent | server/storage.ts:583 | a lower-cased term has no upper-case letter left and lower-casing it again changes nothing |
| Text.IncludesIgnoringCase | server/storage.ts:583-588 | the lower-cased text contains the lower-cased term exactly when some run of the original text has the same lower-case form as the term, so case never decides a match |
| Collections.Filter | server/storage.ts:572-589 | `filter` keeps exactly the elements that pass the test, each no more often than in the input, and never lengthens the list |
| Collections.FilterCounts | server/storage.ts:572-589 | `filter` keeps each passing element exactly as often as it occurs in the input, and drops every failing one |
| Collections.FilterAppend | server/storage.ts:572-589 | filtering a concatenation filters each part in turn, so the kept elements stay in input order |
| Collections.FilterKeepsOrder | server/storage.ts:572-589 | any relation between earlier and later elements of the input still holds between earlier and later elements of the filtered list |
| Collections.JsSlice | server/storage.ts:597-599 | `slice(start, end)` is a contiguous window of the list, never longer than the list or than `end - start`; for non-negative bounds it is exactly `xs[start..min(end, len)]`, or empty when `start` is past the end or not below `end` |
| Collections.JsSliceClamps | server/storage.ts:597-599 | any `slice(start, end)` equals the slice at the clamped bounds, where a negative bound counts back from the end and every bound is cut into `[0, length]` |
| Collections.Dedup | server/storage.ts:742 | `[...new Set(xs)]` has no repeats, holds exactly the values of `xs`, and is no longer than `xs` |
| Collections.DedupFirstOccurrenceOrder | server/storage.ts:742 | `[...new Set(xs)]` lists its values in the order of their first occurrences in `xs` |
| Collections.FindValue | server/storage.ts:526-528 | `find` over a map's values returns the match with the smallest key, and nothing exactly when no value matches |
| Collections.ValuesInKeyOrder | server/storage.ts:567 | a map's values are listed in ascending key order |
| Storage.EmptyStore | server/storage.ts:60-68 | the store starts with no users, categories or articles, an empty join list, all three counters at 1, and is well formed |
| Storage.GetUser | server/storage.ts:521-523 | a user is returned exactly when one is filed under the id, and it is that user |
| Storage.GetUserByUsername | server/storage.ts:525-529 | the result has the requested username and is stored; nothing is returned exactly when no user has it; among several, the earliest-created one wins |
| Storage.CreateUserFresh | server/storage.ts:531-536 | the new user's id was unused, existing users are unchanged, the map grows by one, and the store stays well formed |
| Storage.GetCategories | server/storage.ts:539-541 | the list has one entry per stored category and holds exactly the stored categories |
| Storage.GetCategory | server/storage.ts:543-545 | a category is returned exactly when one is filed under the id, and it is that category |
| Storage.GetCategoryBySlug | server/storage.ts:547-551 | the result has the requested slug and is stored; nothing is returned exactly when no category has it; the earliest-created match wins |
| Storage.CreateCategoryFresh | server/storage.ts:553-558 | the new category's id was unused, existing categories are unchanged, the map grows by one, the store stays well formed |
| Storage.ArticleListByCreation | server/storage.ts:567 | in a well-formed store the article list runs in strictly ascending id order |
| Storage.GetArticleCategories | server/storage.ts:708-714 | the categories are exactly the existing categories named by the article's join records, at most one per join record |
| Storage.ArticleCategoriesInJoinOrder | server/storage.ts:708-714 | the list has one entry per join record of the article that names an existing category, and entry `i` is the category the `i`-th such record names, so join order and repeats are kept |
| Storage.GetArticle | server/storage.ts:669-681 | an article is returned exactly when one is filed under the id, enriched with its author lookup and its categories |
| Storage.GetArticleBySlug | server/storage.ts:683-698 | the result is a stored article with the requested slug, enriched; nothing exactly when no article has that slug; the earliest-created match wins |
| Storage.CreateArticleFresh | server/storage.ts:700-705 | the new article's id was unused, existing articles are unchanged, the map grows by one, the store stays well formed |
| Storage.CreateArticleIdsIncrease | server/storage.ts:700-705 | two successive creations hand out strictly increasing fresh ids and both articles are stored under them |
| Storage.AddArticleCategory | server/storage.ts:716-719 | the record is appended at the end of the join list, unchecked, and returned as given; nothing else in the store changes |
| Storage.AddArticleCategoryKeepsShape | server/storage.ts:716-719 | appending a join record adds exactly that record, unchecked, and keeps the store well formed |
| Query.SortByDate | server/storage.ts:592-594 | the sort is a permutation of its input with non-increasing timestamps |
| Query.SortByDateStable | server/storage.ts:592-594 | the articles sharing any one timestamp keep their relative input order |
| Query.SortByDateTies | server/storage.ts:592-594 | fed an ascending-id list, the sort keeps articles with equal timestamps in ascending id order |
| Query.GetArticlesTiesByCreation | server/storage.ts:567-599 | in a well-formed store, articles with equal timestamps appear in creation order on every page |
| Query.ArticleIdsInCategory | server/storage.ts:573-575 | an id is collected exactly when a join record links it to the category |
| Query.ByCategoryExactly | server/storage.ts:570-579 | with a resolvable slug exactly the articles joined to that category survive; with no slug, an empty slug or an unknown slug the list is unchanged |
| Query.BySearchExactly | server/storage.ts:582-589 | with a non-empty term exactly the articles whose lower-cased title, excerpt or content contains the lower-cased term survive; otherwise the list is unchanged |
| Query.SelectedExactly | server/storage.ts:567-589 | an article passes both filters exactly when it is stored, is joined to the resolved category (if any) and matches the term (if any) |
| Query.CombinedFiltersIntersect | server/storage.ts:570-589 | the two filters together keep exactly the articles each keeps on its own |
| Query.GetArticles | server/storage.ts:561-616 | every entry is an article that passed both filters, with its author and categories attached; entries run newest first; a positive limit bounds their number; and entry `i` is article `i` of the page |
| Query.PageFromSelected | server/storage.ts:561-599 | every article on a page passed both filters |
| Query.GetArticlesIsWindow | server/storage.ts:597-599 | with a positive limit a page has at most `limit` articles, and for a non-negative offset it is the sorted filtered list cut at `[offset, offset + limit)` |
| Query.PageIsWindow | server/storage.ts:592-599 | whatever the limit and offset, a page is a contiguous run of the sorted, filtered list |
| Query.SelectedByCreation | server/storage.ts:567-589 | in a well-formed store both filters keep the articles in ascending id order |
| Query.GetArticlesUnbounded | server/storage.ts:597-599 | an absent or zero limit ignores the offset and returns as many articles as the count reports |
| Query.GetArticlesSound | server/storage.ts:561-616 | every returned article is stored, matches the term if one is given, and is joined to the resolved category if there is one |
| Query.GetArticleCount | server/storage.ts:641-667 | the count is the length of the unbounded listing with the same filters, and never exceeds the number of stored articles |
| Query.SearchIgnoresCase | server/storage.ts:583 | a term and its lower-cased form give the same listing and the same count |
| Query.GetFeaturedArticles | server/storage.ts:618-639 | every entry is a stored article flagged 1 with its author and categories attached, every stored article flagged 1 is listed, entries run newest first, and the list is never longer than the article map |
| Query.FeaturedOnce | server/storage.ts:618-623 | in a well-formed store no featured article is listed twice |
| Related.SourceCategoryIds | server/storage.ts:727-728 | the source's category ids are exactly the ids of existing categories its join records name |
| Related.SharedJoinIds | server/storage.ts:731-733 | a candidate id is listed exactly when it is not the source and one of its join records names one of the source's categories |
| Related.ScoreCountsJoins | server/storage.ts:736-739 | a candidate's count is the number of its join records into the source's categories |
| Related.RankSort | server/storage.ts:743-746 | the ranking is a permutation of the candidates with non-increasing counts |
| Related.RankSortByScoreThenDate | server/storage.ts:743-755 | when every candidate names an article, the ranking is by count, then by non-increasing publish date |
| Related.RankSortStable | server/storage.ts:743-755 | the ranking is stable: ids the comparator ties (same count, both stored, same publish date) keep their input order, which for the related list is the order of first join records (Collections.DedupFirstOccurrenceOrder) |
| Related.RankSortDistinct | server/storage.ts:742-746 | sorting the de-duplicated candidates leaves no id twice |
| Related.RankedCandidates | server/storage.ts:742-755 | when every join record names an article, the whole ranking names stored articles only and is ordered by count, then newest first |
| Related.RelatedIds | server/storage.ts:722-756 | an unknown source id gives no ids; for a stored source and a non-negative limit the ids are exactly the first `min(limit, n)` entries of the ranking of the `n` distinct candidates |
| Related.RelatedIdsOutrankTheRest | server/storage.ts:742-756 | for a stored source and a non-negative limit, when every join record names an article, every kept id ranks ahead of every candidate the limit cut off |
| Related.RelatedLength | server/storage.ts:722-764 | for a stored source and a non-negative limit, when every join record names an article, the list has exactly `min(limit, n)` entries for `n` distinct candidates |
| Related.RelatedIdsRanked | server/storage.ts:742-756 | the truncated ranking keeps that order and names stored articles only |
| Related.RelatedIdsFacts | server/storage.ts:727-756 | the ranked ids have no repeats, never include the source, number at most a non-negative limit, each share a category with the source, and have non-increasing counts |
| Related.GetRelatedArticles | server/storage.ts:722-764 | an unknown source id yields an empty list; every entry is a stored article with its author and categories attached; a non-negative limit bounds the length, and when every join record names an article the length is exactly `min(limit, n)` for `n` distinct candidates |
| Related.ArticlesForIds | server/storage.ts:759-763 | fetching keeps, in order, exactly the ids that name an article |
| Related.RelatedExcludesSourceAndRepeats | server/storage.ts:731-742 | no related article is the source and none appears twice |
| Related.RelatedShareCategory | server/storage.ts:727-733 | every related article shares a category with the source |
| Related.RelatedByScore | server/storage.ts:743-746 | in a well-formed store, related articles come in non-increasing order of shared-join count |
| Related.RelatedArticlesRanked | server/storage.ts:743-755 | when every join record names an existing article, ties in count are broken newest first |
| Related.CandidatesExactly | server/storage.ts:727-733 | an id is a candidate exactly when it is not the source and shares a category with it |
| Related.RelatedComplete | server/storage.ts:722-764 | with a limit at least the number of join records, every other article sharing a category is listed |
| Related.DuplicateJoinInflatesScore | server/storage.ts:716-739 | re-adding a join record into a source category raises that article's count by one even though the set of join records is unchanged |
| Related.LinkedCategoriesIgnoresOthers | server/storage.ts:708-714 | a join record of another article does not change an article's category list |
| Routes.OrDefault | server/routes.ts:33-34 | a non-zero parsed value is kept, an absent (NaN) or zero value takes the fallback, and a non-zero fallback gives a non-zero result |
| Routes.CeilDiv | server/routes.ts:41 | `Math.ceil(a / b)` is the least integer whose multiple of `b` reaches `a`, for either sign of `b` |
| Routes.ListArticles | server/routes.ts:33-50 | an absent or zero `page` is reported as 1 and an absent or zero `limit` as 9, neither is ever 0; the articles are the listing of `limit` entries from offset `(page - 1) * limit`, the reported total is the length of the unbounded listing, and `totalPages` is `Math.ceil(total / limit)` |
| Routes.ListDefaults | server/routes.ts:33-34 | an absent or zero `page` and `limit` give exactly the response for page 1 with limit 9 |
| Routes.PagedListingIsPage | server/routes.ts:35-39 | the offset `(page - 1) * limit` handed to the listing with a positive page and limit selects exactly page `page` of the unbounded listing |
| Routes.PageOf | server/routes.ts:35 | page `p` of size `l` holds at most `l` items, taken in order from position `(p - 1) * l`, and is non-empty exactly when that position is inside the list |
| Routes.ListArticlesIsPage | server/routes.ts:33-39 | for a positive page and limit, the articles are page `page` of the unbounded newest-first listing |
| Routes.EveryItemOnItsPage | server/routes.ts:35 | item `k` of the listing is on page `k / limit + 1` at position `k % limit`, so pages miss nothing |
| Routes.PageCountCovers | server/routes.ts:41 | for a positive limit, `totalPages * limit >= total`, the last page is non-empty, and a zero total has zero pages |
| Routes.TotalPagesCovers | server/routes.ts:40-50 | the reported `totalPages` covers the reported total with `limit` articles a page, the last page is non-empty, and no articles means no pages |
| Routes.PageStartsWithin | server/routes.ts:35-41 | a page starts inside the list exactly when its number is at most `totalPages` |
| Routes.PagesInRangeAreFilled | server/routes.ts:33-50 | for a positive page and limit, the page has articles exactly when `page <= totalPages` |
| Routes.ArticleBySlug | server/routes.ts:58-71 | the body is exactly what the storage lookup by slug returns: a stored article with that slug, enriched with its author and categories; a 404 "Article not found" exactly when no article has the slug |
| Routes.RelatedBySlug | server/routes.ts:74-90 | 404 exactly when no article has the slug; otherwise the related list of an article with that slug, with the limit defaulting to 3 |
| Routes.RelatedDefaults | server/routes.ts:77 | an absent or zero `limit` on the related endpoint gives exactly the response for limit 3 |
| Routes.SlugEndpointsAgree | server/routes.ts:61-85 | both endpoints answer 404 for the same slugs, and for a known slug the related list is that of the article the detail endpoint returns |

## Left out

- `server/dbStorage.ts` and `server/seedDb.ts`: the Postgres-backed storage and its seeding are not part of this model. The drizzle-orm queries behind them cannot be seen.
- The seed data of `initializeData` (`server/storage.ts:73-518`) is fixture content. The model starts from `EmptyStore`, the state the constructor sets up before seeding.
- The newsletter endpoint: its email check is a zod library validator.
- The client code: React pages, debounce timers and page-button windowing are presentation.
- The `/categories` and `/articles/featured` handlers pass the store results through unchanged. Their content is modelled by `Storage.GetCategories` and `Query.GetFeaturedArticles`.
- Express dispatch: `/articles/featured` is registered before `/articles/:slug`, so the slug `featured` never reaches the detail handler. The handlers are modelled one by one, without the router.
- Asynchrony, `Promise.all` and every 500 error path: the model is sequential and total.
- Dates: `publishedAt` is an integer timestamp. Parsing `Date` objects and `getTime()` are not modelled.
- JavaScript numbers: ids, counts and timestamps are unbounded integers. Precision loss beyond 2^53 is not modelled.
- `parseInt`: its result is given as an `Option<int>`, with `None` for NaN. Parsing the query string itself is not modelled.
- Text.Lower: lower-cases ASCII letters only. Full Unicode `toLowerCase` (special casing, non-Latin scripts) is not modelled.
- `isFeatured`: in the model the insert record must carry a value. `MemStorage` leaves an omitted flag `undefined`, which fails `=== 1` exactly as 0 does.
- Related.RelatedArticlesRanked: the date tie-break is proved only when every join record names an existing article. Otherwise the comparator drops the date comparison for a missing id, and the result then depends on the engine's sort on an inconsistent comparator.
- Collections.Filter: its own contract states membership, the length bound and that no element is repeated more often than in the input. Exact multiplicity is stated by Collections.FilterCounts and order by Collections.FilterAppend and Collections.FilterKeepsOrder; these stay lemmas because `filter` sits under every query.
- GetRelatedArticles: its own contract states membership, enrichment and length. The order of the entries is stated by Related.RelatedByScore and Related.RelatedArticlesRanked, and completeness by Related.RelatedComplete.
- RelatedIds: its contract gives the value for a non-negative limit only. A negative limit is computed through `Collections.JsSlice`, which drops that many ids from the end, but RelatedIds does not restate it.
- Storage.CreateUser, Storage.CreateCategory, Storage.CreateArticle: their own contracts state the new record and store directly. Freshness, unchanged entries and well-formedness are stated by the `Create*Fresh` lemmas.
