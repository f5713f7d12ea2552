/**
 * The in-memory store behind the blog: three keyed tables, the list of
 * article/category join records, and the counters that hand out ids.
 * Every operation is a pure function from a store to its answer (and, for the
 * `create` operations, to the next store).
 */
module Storage {
  import opened Wrappers
  import opened Schema
  import opened Collections

  datatype Store = Store(
    users: map<int, User>,
    categories: map<int, Category>,
    articles: map<int, Article>,
    articleCategories: seq<ArticleCategory>,
    nextUserId: int,
    nextCategoryId: int,
    nextArticleId: int)

  /** A freshly constructed store: empty tables, every counter at 1. */
  function EmptyStore(): (st: Store)
    ensures WellFormed(st)
    ensures st.users == map[] && st.categories == map[] && st.articles == map[]
    ensures st.articleCategories == []
    ensures st.nextUserId == 1 && st.nextCategoryId == 1 && st.nextArticleId == 1
  {
    Store(map[], map[], map[], [], 1, 1, 1)
  }

  /**
   * The shape every store built by the `create` operations has: each record is
   * filed under its own id, and each id is positive and below the counter that
   * will hand out the next one.
   */
  predicate WellFormed(st: Store) {
    && 1 <= st.nextUserId && 1 <= st.nextCategoryId && 1 <= st.nextArticleId
    && (forall k :: k in st.users ==> 1 <= k < st.nextUserId && st.users[k].id == k)
    && (forall k :: k in st.categories ==> 1 <= k < st.nextCategoryId && st.categories[k].id == k)
    && (forall k :: k in st.articles ==> 1 <= k < st.nextArticleId && st.articles[k].id == k)
  }

  // ---------------------------------------------------------------- users

  /** `getUser`: the user filed under `id`, if any. */
  function GetUser(st: Store, id: int): (r: Option<User>)
    ensures r.Some? <==> id in st.users
    ensures r.Some? ==> r.value == st.users[id]
  {
    if id in st.users then Some(st.users[id]) else None
  }

  /** `getUserByUsername`: the first user, in insertion order, with that username. */
  function GetUserByUsername(st: Store, username: string): (r: Option<User>)
    ensures r.Some? ==> r.value.username == username && r.value in st.users.Values
    ensures r.None? <==> forall k :: k in st.users ==> st.users[k].username != username
    ensures r.Some? ==> forall k :: k in st.users && st.users[k].username == username ==>
      exists k0 :: k0 in st.users && k0 <= k && st.users[k0] == r.value
  {
    match FindValue(st.users, (u: User) => u.username == username)
    case None => None
    case Some(k) => Some(st.users[k])
  }

  /** `createUser`: files the user under the current counter value and advances the counter. */
  function CreateUser(st: Store, ins: InsertUser): (r: (Store, User))
    ensures r.1 == User(st.nextUserId, ins.username, ins.password, ins.fullName, ins.bio, ins.avatarUrl)
    ensures r.0 == st.(users := st.users[r.1.id := r.1], nextUserId := st.nextUserId + 1)
  {
    var user := User(st.nextUserId, ins.username, ins.password, ins.fullName, ins.bio, ins.avatarUrl);
    (st.(users := st.users[user.id := user], nextUserId := st.nextUserId + 1), user)
  }

  /**
   * On a well-formed store the id `createUser` hands out is new, every existing
   * user keeps its entry, exactly one entry is added, and the store stays well formed.
   */
  lemma CreateUserFresh(st: Store, ins: InsertUser)
    requires WellFormed(st)
    ensures var (st', u) := CreateUser(st, ins);
      && u.id !in st.users
      && (forall k :: k in st.users ==> k in st'.users && st'.users[k] == st.users[k])
      && |st'.users| == |st.users| + 1
      && WellFormed(st')
  {
    var (st', u) := CreateUser(st, ins);
    assert u.id !in st.users;
    assert st'.users.Keys == st.users.Keys + {u.id};
    forall k | k in st'.users ensures 1 <= k < st'.nextUserId && st'.users[k].id == k {
      if k != u.id {
        assert k in st.users;
      }
    }
  }

  // ----------------------------------------------------------- categories

  /** `getCategories`: every category, in insertion order. */
  function GetCategories(st: Store): (r: seq<Category>)
    ensures |r| == |st.categories|
    ensures forall c :: c in r <==> c in st.categories.Values
  {
    Values(st.categories)
  }

  /** `getCategory`: the category filed under `id`, if any. */
  function GetCategory(st: Store, id: int): (r: Option<Category>)
    ensures r.Some? <==> id in st.categories
    ensures r.Some? ==> r.value == st.categories[id]
  {
    if id in st.categories then Some(st.categories[id]) else None
  }

  /**
   * `getCategoryBySlug`: the first category, in insertion order, with that slug;
   * `None` exactly when no category has it.
   */
  function GetCategoryBySlug(st: Store, slug: string): (r: Option<Category>)
    ensures r.Some? ==> r.value.slug == slug && r.value in st.categories.Values
    ensures r.None? <==> forall k :: k in st.categories ==> st.categories[k].slug != slug
    ensures r.Some? ==> forall k :: k in st.categories && st.categories[k].slug == slug ==>
      exists k0 :: k0 in st.categories && k0 <= k && st.categories[k0] == r.value
  {
    match FindValue(st.categories, (c: Category) => c.slug == slug)
    case None => None
    case Some(k) => Some(st.categories[k])
  }

  /** `createCategory`: files the category under the current counter value and advances the counter. */
  function CreateCategory(st: Store, ins: InsertCategory): (r: (Store, Category))
    ensures r.1 == Category(st.nextCategoryId, ins.name, ins.slug)
    ensures r.0 == st.(categories := st.categories[r.1.id := r.1], nextCategoryId := st.nextCategoryId + 1)
  {
    var category := Category(st.nextCategoryId, ins.name, ins.slug);
    (st.(categories := st.categories[category.id := category], nextCategoryId := st.nextCategoryId + 1), category)
  }

  /** The category counterpart of `CreateUserFresh`. */
  lemma CreateCategoryFresh(st: Store, ins: InsertCategory)
    requires WellFormed(st)
    ensures var (st', c) := CreateCategory(st, ins);
      && c.id !in st.categories
      && (forall k :: k in st.categories ==> k in st'.categories && st'.categories[k] == st.categories[k])
      && |st'.categories| == |st.categories| + 1
      && WellFormed(st')
  {
    var (st', c) := CreateCategory(st, ins);
    assert c.id !in st.categories;
    assert st'.categories.Keys == st.categories.Keys + {c.id};
    forall k | k in st'.categories ensures 1 <= k < st'.nextCategoryId && st'.categories[k].id == k {
      if k != c.id {
        assert k in st.categories;
      }
    }
  }

  // ------------------------------------------------------------- articles

  /** `Array.from(articles.values())`: every article, in insertion (ascending id) order. */
  function ArticleList(st: Store): (r: seq<Article>)
    ensures |r| == |st.articles|
    ensures forall a :: a in r <==> a in st.articles.Values
  {
    Values(st.articles)
  }

  /** In a well-formed store the listing runs in ascending id, that is creation, order. */
  lemma ArticleListByCreation(st: Store)
    requires WellFormed(st)
    ensures forall i, j :: 0 <= i < j < |ArticleList(st)| ==> ArticleList(st)[i].id < ArticleList(st)[j].id
  {
    var ids := SortedIds(st.articles.Keys);
    var r := ArticleList(st);
    ValuesInKeyOrder(st.articles);
    forall i, j | 0 <= i < j < |r| ensures r[i].id < r[j].id {
      assert r[i] == st.articles[ids[i]] && r[j] == st.articles[ids[j]];
    }
  }

  /**
   * `getArticleCategories`: the categories named by the article's join records,
   * in join order, skipping ids that name no category. A category linked twice
   * appears twice.
   */
  function GetArticleCategories(st: Store, articleId: int): (r: seq<Category>)
    ensures |r| <= |st.articleCategories|
    ensures forall c :: c in r <==>
      exists j :: j in st.articleCategories && j.articleId == articleId
        && j.categoryId in st.categories && st.categories[j.categoryId] == c
  {
    LinkedCategories(st.articleCategories, st.categories, articleId)
  }

  function LinkedCategories(joins: seq<ArticleCategory>, categories: map<int, Category>, articleId: int): (r: seq<Category>)
    ensures |r| <= |joins|
    ensures forall c :: c in r <==>
      exists j :: j in joins && j.articleId == articleId
        && j.categoryId in categories && categories[j.categoryId] == c
  {
    if |joins| == 0 then []
    else
      var j := joins[0];
      assert joins == [j] + joins[1..];
      var here := if j.articleId == articleId && j.categoryId in categories then [categories[j.categoryId]] else [];
      here + LinkedCategories(joins[1..], categories, articleId)
  }

  /** The test "links article `articleId` to an existing category". */
  function LinksTo(categories: map<int, Category>, articleId: int): ArticleCategory -> bool {
    (j: ArticleCategory) => j.articleId == articleId && j.categoryId in categories
  }

  /** `r` lists, position by position, the categories the records of `linked` name. */
  predicate NamedInOrder(r: seq<Category>, linked: seq<ArticleCategory>, categories: map<int, Category>) {
    && |r| == |linked|
    && forall i :: 0 <= i < |r| ==> linked[i].categoryId in categories && r[i] == categories[linked[i].categoryId]
  }

  /**
   * The categories come one per join record that links the article to an
   * existing category, in the order of those records.
   */
  lemma {:induction false} LinkedCategoriesInJoinOrder(joins: seq<ArticleCategory>, categories: map<int, Category>, articleId: int)
    ensures NamedInOrder(LinkedCategories(joins, categories, articleId), Filter(joins, LinksTo(categories, articleId)), categories)
  {
    if |joins| > 0 {
      var j, tail := joins[0], joins[1..];
      var p := LinksTo(categories, articleId);
      LinkedCategoriesInJoinOrder(tail, categories, articleId);
      var rest, linkedRest := LinkedCategories(tail, categories, articleId), Filter(tail, p);
      if p(j) {
        assert Filter(joins, p) == [j] + linkedRest;
        assert LinkedCategories(joins, categories, articleId) == [categories[j.categoryId]] + rest;
        NamedInOrderCons(j, rest, linkedRest, categories);
      } else {
        assert Filter(joins, p) == linkedRest;
        assert LinkedCategories(joins, categories, articleId) == rest;
      }
    }
  }

  lemma NamedInOrderCons(j: ArticleCategory, rest: seq<Category>, linkedRest: seq<ArticleCategory>, categories: map<int, Category>)
    requires j.categoryId in categories
    requires NamedInOrder(rest, linkedRest, categories)
    ensures NamedInOrder([categories[j.categoryId]] + rest, [j] + linkedRest, categories)
  {
    var r, linked := [categories[j.categoryId]] + rest, [j] + linkedRest;
    forall i | 0 < i < |r| ensures linked[i].categoryId in categories && r[i] == categories[linked[i].categoryId] {
      assert r[i] == rest[i - 1] && linked[i] == linkedRest[i - 1];
    }
  }

  /** `getArticleCategories` yields one category per join record of the article naming an existing category, in join order. */
  lemma ArticleCategoriesInJoinOrder(st: Store, articleId: int)
    ensures var r, linked := GetArticleCategories(st, articleId), Filter(st.articleCategories, LinksTo(st.categories, articleId));
      && |r| == |linked|
      && forall i :: 0 <= i < |r| ==>
           linked[i].articleId == articleId && linked[i].categoryId in st.categories && r[i] == st.categories[linked[i].categoryId]
  {
    var linked := Filter(st.articleCategories, LinksTo(st.categories, articleId));
    LinkedCategoriesInJoinOrder(st.articleCategories, st.categories, articleId);
    forall i | 0 <= i < |linked| ensures linked[i].articleId == articleId {
      assert linked[i] in linked;
    }
  }

  /** The enrichment step: attaches the author (if the user exists) and the categories. */
  function Enrich(st: Store, a: Article): (r: ArticleWithDetails)
    ensures r.article == a
    ensures r.author == GetUser(st, a.authorId)
    ensures r.categories == GetArticleCategories(st, a.id)
  {
    ArticleWithDetails(a, GetUser(st, a.authorId), GetArticleCategories(st, a.id))
  }

  /** Enriches every article of a list, keeping the order. */
  function EnrichAll(st: Store, xs: seq<Article>): (r: seq<ArticleWithDetails>)
    ensures |r| == |xs|
    ensures forall i :: 0 <= i < |xs| ==> r[i] == Enrich(st, xs[i])
  {
    seq(|xs|, i requires 0 <= i < |xs| => Enrich(st, xs[i]))
  }

  /** A list that enriches `xs` position by position is `EnrichAll(st, xs)`. */
  lemma EnrichAllPointwise(st: Store, xs: seq<Article>, r: seq<ArticleWithDetails>)
    requires |r| == |xs| && forall i :: 0 <= i < |xs| ==> r[i] == Enrich(st, xs[i])
    ensures r == EnrichAll(st, xs)
  {
  }

  /** Enriching keeps each article in its place, and each enriched entry is one of the articles. */
  lemma EnrichAllArticles(st: Store, xs: seq<Article>)
    ensures forall i :: 0 <= i < |xs| ==> EnrichAll(st, xs)[i].article == xs[i]
    ensures forall d :: d in EnrichAll(st, xs) ==> d.article in xs
    ensures forall a :: a in xs ==> Enrich(st, a) in EnrichAll(st, xs)
    ensures forall d :: d in EnrichAll(st, xs) ==> d == Enrich(st, d.article)
  {
    var r := EnrichAll(st, xs);
    forall d | d in r ensures d.article in xs && d == Enrich(st, d.article) {
      var i :| 0 <= i < |r| && r[i] == d;
      assert r[i].article == xs[i];
    }
    forall a | a in xs ensures Enrich(st, a) in r {
      var i :| 0 <= i < |xs| && xs[i] == a;
      assert r[i] == Enrich(st, a);
    }
  }

  /** Enriching a run of a list gives the same run of the enriched list. */
  lemma EnrichAllSlice(st: Store, xs: seq<Article>, lo: nat, hi: nat)
    requires lo <= hi <= |xs|
    ensures EnrichAll(st, xs[lo..hi]) == EnrichAll(st, xs)[lo..hi]
  {
    var l, r := EnrichAll(st, xs[lo..hi]), EnrichAll(st, xs)[lo..hi];
    forall i | 0 <= i < |l| ensures l[i] == r[i] {
      assert xs[lo..hi][i] == xs[lo + i];
    }
  }

  /** `getArticle`: the article filed under `id`, enriched, if any. */
  function GetArticle(st: Store, id: int): (r: Option<ArticleWithDetails>)
    ensures r.Some? <==> id in st.articles
    ensures r.Some? ==> r.value == Enrich(st, st.articles[id])
  {
    if id in st.articles then Some(Enrich(st, st.articles[id])) else None
  }

  /**
   * `getArticleBySlug`: the first article, in insertion order, with that slug,
   * enriched; `None` exactly when no article has it.
   */
  function GetArticleBySlug(st: Store, slug: string): (r: Option<ArticleWithDetails>)
    ensures r.Some? ==> r.value.article.slug == slug && r.value.article in st.articles.Values
    ensures r.Some? ==> r.value == Enrich(st, r.value.article)
    ensures r.None? <==> forall k :: k in st.articles ==> st.articles[k].slug != slug
    ensures r.Some? ==> forall k :: k in st.articles && st.articles[k].slug == slug ==>
      exists k0 :: k0 in st.articles && k0 <= k && st.articles[k0] == r.value.article
  {
    match FindValue(st.articles, (a: Article) => a.slug == slug)
    case None => None
    case Some(k) => Some(Enrich(st, st.articles[k]))
  }

  /** `createArticle`: files the article under the current counter value and advances the counter. */
  function CreateArticle(st: Store, ins: InsertArticle): (r: (Store, Article))
    ensures r.1 == Article(st.nextArticleId, ins.title, ins.slug, ins.excerpt, ins.content,
      ins.featuredImageUrl, ins.readingTime, ins.authorId, ins.publishedAt, ins.isFeatured)
    ensures r.0 == st.(articles := st.articles[r.1.id := r.1], nextArticleId := st.nextArticleId + 1)
  {
    var article := Article(st.nextArticleId, ins.title, ins.slug, ins.excerpt, ins.content,
      ins.featuredImageUrl, ins.readingTime, ins.authorId, ins.publishedAt, ins.isFeatured);
    (st.(articles := st.articles[article.id := article], nextArticleId := st.nextArticleId + 1), article)
  }

  /** The article counterpart of `CreateUserFresh`. */
  lemma CreateArticleFresh(st: Store, ins: InsertArticle)
    requires WellFormed(st)
    ensures var (st', a) := CreateArticle(st, ins);
      && a.id !in st.articles
      && (forall k :: k in st.articles ==> k in st'.articles && st'.articles[k] == st.articles[k])
      && |st'.articles| == |st.articles| + 1
      && WellFormed(st')
  {
    var (st', a) := CreateArticle(st, ins);
    assert a.id !in st.articles;
    assert st'.articles.Keys == st.articles.Keys + {a.id};
    forall k | k in st'.articles ensures 1 <= k < st'.nextArticleId && st'.articles[k].id == k {
      if k != a.id {
        assert k in st.articles;
      }
    }
  }

  /** Two articles created one after the other get strictly increasing ids, both new to the store. */
  lemma CreateArticleIdsIncrease(st: Store, first: InsertArticle, second: InsertArticle)
    requires WellFormed(st)
    ensures var (st1, a1) := CreateArticle(st, first);
      var (st2, a2) := CreateArticle(st1, second);
      && a1.id < a2.id
      && a1.id !in st.articles && a2.id !in st1.articles
      && st2.articles[a1.id] == a1 && st2.articles[a2.id] == a2
  {
    CreateArticleFresh(st, first);
    var (st1, a1) := CreateArticle(st, first);
    CreateArticleFresh(st1, second);
  }

  // --------------------------------------------------------- join records

  /**
   * `addArticleCategory`: appends the join record as given. Neither end is
   * checked to exist and a duplicate is appended again.
   */
  function AddArticleCategory(st: Store, ac: ArticleCategory): (r: (Store, ArticleCategory))
    ensures r.1 == ac
    ensures r.0 == st.(articleCategories := st.articleCategories + [ac])
  {
    (st.(articleCategories := st.articleCategories + [ac]), ac)
  }

  /** Appending a join record keeps a well-formed store well formed and adds exactly that record. */
  lemma AddArticleCategoryKeepsShape(st: Store, ac: ArticleCategory)
    requires WellFormed(st)
    ensures var (st', _) := AddArticleCategory(st, ac);
      && WellFormed(st')
      && |st'.articleCategories| == |st.articleCategories| + 1
      && multiset(st'.articleCategories) == multiset(st.articleCategories) + multiset{ac}
  {
  }
}
