/** The two record shapes the newsroom stores (src/App.jsx, `defaultArticles`,
    `defaultNewsletters` and the editor's `emptyArticle` and `letter`). */
module Content {
  import opened Text

  datatype Option<T> = None | Some(value: T)

  /** An article.  `date` is the ISO `YYYY-MM-DD` date as a day number, so
      integer order is calendar order.  `tags` is optional because the views
      read it as `a.tags?`; an imported record may lack it. */
  datatype Article = Article(
    id: String,
    title: String,
    author: String,
    date: int,
    category: String,
    tags: Option<seq<String>>,
    summary: String,
    content: String,
    cover: String)

  /** A newsletter issue. */
  datatype Newsletter = Newsletter(
    id: String,
    title: String,
    date: int,
    highlight: String,
    content: String)

  function ArticleDate(a: Article): int { a.date }

  function NewsletterDate(n: Newsletter): int { n.date }

  /** The tags of an article; an absent tags list contributes none. */
  function TagsOf(a: Article): seq<String>
  {
    match a.tags
    case Some(ts) => ts
    case None => []
  }

  /** No two articles share an id. */
  predicate UniqueIds(s: seq<Article>)
  {
    forall i, j :: 0 <= i < j < |s| ==> s[i].id != s[j].id
  }

  /** No two newsletter issues share an id. */
  predicate UniqueLetterIds(s: seq<Newsletter>)
  {
    forall i, j :: 0 <= i < j < |s| ==> s[i].id != s[j].id
  }
}
