/**
 * The record shapes of the blog's four tables. Timestamps are whole numbers
 * (milliseconds since the epoch) rather than `Date` objects.
 */
module Schema {
  import opened Wrappers

  datatype User = User(
    id: int,
    username: string,
    password: string,
    fullName: string,
    bio: Option<string>,
    avatarUrl: Option<string>)

  /** A user as handed to `createUser`: every column but the id. */
  datatype InsertUser = InsertUser(
    username: string,
    password: string,
    fullName: string,
    bio: Option<string>,
    avatarUrl: Option<string>)

  datatype Category = Category(id: int, name: string, slug: string)

  /** A category as handed to `createCategory`: every column but the id. */
  datatype InsertCategory = InsertCategory(name: string, slug: string)

  /** `isFeatured` is the integer flag of the table; only the value 1 marks a featured article. */
  datatype Article = Article(
    id: int,
    title: string,
    slug: string,
    excerpt: string,
    content: string,
    featuredImageUrl: string,
    readingTime: int,
    authorId: int,
    publishedAt: int,
    isFeatured: int)

  /** An article as handed to `createArticle`: every column but the id. */
  datatype InsertArticle = InsertArticle(
    title: string,
    slug: string,
    excerpt: string,
    content: string,
    featuredImageUrl: string,
    readingTime: int,
    authorId: int,
    publishedAt: int,
    isFeatured: int)

  /** One join record linking an article to a category. */
  datatype ArticleCategory = ArticleCategory(articleId: int, categoryId: int)

  /**
   * An article together with its resolved author and categories. The author is
   * `None` when the article's `authorId` names no user.
   */
  datatype ArticleWithDetails = ArticleWithDetails(
    article: Article,
    author: Option<User>,
    categories: seq<Category>)
}
