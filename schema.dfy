/** The reader's tables and the constraints of its schema. The store is the
    state the open connection sees; every operation keeps the constraints. */
module Schema {
  import opened Wrappers
  import opened Text

  /** A row id (`INTEGER PRIMARY KEY`). */
  type Id = nat

  /** Timestamps are whole seconds. */
  type Time = int

  datatype UserRow = UserRow(key: string, createdAt: Time)

  datatype FeedRow = FeedRow(
    userId: Id,
    url: string,
    title: Option<string>,
    lastFetched: Option<Time>,
    createdAt: Time)

  datatype ArticleRow = ArticleRow(
    feedId: Id,
    guid: string,
    title: Option<string>,
    link: Option<string>,
    content: Option<string>,
    summary: Option<string>,
    publishedAt: Option<Time>,
    fetchedAt: Time)

  /** All five tables as one value. `labels` holds the `(feed_id, label)`
      pairs, `readMarks` maps `(user_id, article_id)` to `read_at`. */
  datatype Tables = Tables(
    users: map<Id, UserRow>,
    feeds: map<Id, FeedRow>,
    labels: set<(Id, string)>,
    articles: map<Id, ArticleRow>,
    readMarks: map<(Id, Id), Time>)

  /** `users.key` is unique. */
  predicate UsersConsistent(users: map<Id, UserRow>) {
    forall u, v | u in users && v in users && users[u].key == users[v].key :: u == v
  }

  /** Every feed belongs to a user, and `(user_id, url)` is unique. */
  predicate FeedsConsistent(users: map<Id, UserRow>, feeds: map<Id, FeedRow>) {
    (forall f | f in feeds :: feeds[f].userId in users) &&
    (forall f, g | f in feeds && g in feeds && feeds[f].userId == feeds[g].userId && feeds[f].url == feeds[g].url :: f == g)
  }

  /** Every label belongs to a feed; the pair is the primary key, so a set
      holds exactly the table. */
  predicate LabelsConsistent(feeds: map<Id, FeedRow>, labels: set<(Id, string)>) {
    forall p | p in labels :: p.0 in feeds
  }

  /** Every article belongs to a feed, and `(feed_id, guid)` is unique. */
  predicate ArticlesConsistent(feeds: map<Id, FeedRow>, articles: map<Id, ArticleRow>) {
    (forall a | a in articles :: articles[a].feedId in feeds) &&
    (forall a, b | a in articles && b in articles && articles[a].feedId == articles[b].feedId && articles[a].guid == articles[b].guid :: a == b)
  }

  /** Every read mark names an existing user and an existing article. */
  predicate ReadMarksConsistent(users: map<Id, UserRow>, articles: map<Id, ArticleRow>, readMarks: map<(Id, Id), Time>) {
    forall k | k in readMarks :: k.0 in users && k.1 in articles
  }

  /** The schema's UNIQUE, PRIMARY KEY and FOREIGN KEY constraints: what
      SQLite checks when a write is committed. */
  predicate SchemaConsistent(t: Tables) {
    UsersConsistent(t.users) &&
    FeedsConsistent(t.users, t.feeds) &&
    LabelsConsistent(t.feeds, t.labels) &&
    ArticlesConsistent(t.feeds, t.articles) &&
    ReadMarksConsistent(t.users, t.articles, t.readMarks)
  }

  /** User keys and labels are stored lower-cased. The schema does not check
      this; every write path of the reader lower-cases first. */
  predicate StoredLowerCase(t: Tables) {
    (forall u | u in t.users :: IsLower(t.users[u].key)) &&
    (forall p | p in t.labels :: IsLower(p.1))
  }

  /** The schema's constraints together with the reader's own invariant that
      keys and labels are lower-case. */
  predicate Consistent(t: Tables) {
    SchemaConsistent(t) && StoredLowerCase(t)
  }

  /** The tables as the open connection sees them. */
  class Store {
    var users: map<Id, UserRow>
    var feeds: map<Id, FeedRow>
    var labels: set<(Id, string)>
    var articles: map<Id, ArticleRow>
    var readMarks: map<(Id, Id), Time>

    function Snapshot(): (t: Tables)
      reads this
      ensures t.users == users && t.feeds == feeds && t.labels == labels
      ensures t.articles == articles && t.readMarks == readMarks
    {
      Tables(users, feeds, labels, articles, readMarks)
    }

    ghost predicate Valid()
      reads this
    {
      Consistent(Snapshot())
    }

    /** A freshly created database: every table empty. */
    constructor ()
      ensures Valid()
      ensures Snapshot() == Tables(map[], map[], {}, map[], map[])
    {
      users := map[];
      feeds := map[];
      labels := {};
      articles := map[];
      readMarks := map[];
    }

    /** Replaces every table at once. */
    method Load(t: Tables)
      modifies this
      ensures Snapshot() == t
    {
      users, feeds, labels, articles, readMarks := t.users, t.feeds, t.labels, t.articles, t.readMarks;
    }
  }

  /** The row id SQLite gives a new row of a table whose ids are `ids`: one
      more than the largest, or 1 for an empty table. */
  method NextRowId(ids: set<Id>) returns (n: Id)
    ensures n !in ids && n >= 1
    ensures forall x | x in ids :: x < n
    ensures ids == {} ==> n == 1
    ensures ids != {} ==> n - 1 in ids
  {
    n := 1;
    var rest := ids;
    while rest != {}
      invariant rest <= ids
      invariant n >= 1
      invariant forall x | x in ids && x !in rest :: x < n
      invariant n == 1 || (n - 1 in ids && n - 1 !in rest)
      decreases |rest|
    {
      var x :| x in rest;
      if x + 1 > n {
        n := x + 1;
      }
      rest := rest - {x};
    }
  }
}
