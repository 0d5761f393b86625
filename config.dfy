/** The default settings of the reader. Every value can be overridden from the
    environment; the model uses the defaults. */
module Config {
  /** Articles shown per page of the article list. */
  const ArticlesPerPage: nat := 5
  /** Age, in days, after which the retention job deletes an article. */
  const ArticleRetentionDays: nat := 90
  /** Longest article content kept, in characters. */
  const MaxArticleContentLength: nat := 50000
  /** Length of a generated user key. */
  const UserKeyLength: nat := 8

  const SecondsPerDay: nat := 24 * 60 * 60
}
