/** The store operations: users, feeds with their labels, and articles with
    their read marks. Each reads or updates the tables of a `Store`; every
    update keeps the schema's constraints. */
module Crud {
  import opened Wrappers
  import opened Text
  import opened Ordering
  import opened Schema
  import Models
  import Config

  /** A constraint violation reported by the database. */
  datatype DbError = IntegrityError(message: string)

  const UniqueUserKey: string := "UNIQUE constraint failed: users.key"
  const UniqueFeedUrl: string := "UNIQUE constraint failed: feeds.user_id, feeds.url"
  const UniqueFeedLabel: string := "UNIQUE constraint failed: feed_labels.feed_id, feed_labels.label"
  const ForeignKeyFailed: string := "FOREIGN KEY constraint failed"

  datatype User = User(id: Id, key: string, createdAt: Time)

  /** A feed as the feed queries report it: its row, its labels in order
      and how many articles it has. */
  datatype Feed = Feed(id: Id, row: FeedRow, labels: seq<string>, articleCount: nat)

  /** An article as the article queries report it, with its feed's title
      and whether the asking user has read it. */
  datatype Article = Article(id: Id, row: ArticleRow, feedTitle: Option<string>, isRead: bool)

  /** One page of the article list. */
  datatype Page = Page(
    articles: seq<Article>,
    page: int,
    totalPages: nat,
    totalCount: nat,
    hasPrev: bool,
    hasNext: bool)

  // ============== Users ==============

  /** Some stored user has the key `key`. */
  predicate KeyTaken(users: map<Id, UserRow>, key: string) {
    exists u | u in users :: users[u].key == key
  }

  /** `get_user_by_key`: the user whose stored key is the lower-cased `key`,
      so the lookup ignores case. */
  method GetUserByKey(db: Store, key: string) returns (r: Option<User>)
    requires db.Valid()
    ensures r.None? <==> !KeyTaken(db.users, Lower(key))
    ensures forall u | u in db.users && db.users[u].key == Lower(key) ::
      r == Some(User(u, Lower(key), db.users[u].createdAt))
  {
    var k := Lower(key);
    if u :| u in db.users && db.users[u].key == k {
      r := Some(User(u, k, db.users[u].createdAt));
    } else {
      r := None;
    }
  }

  /** The key `create_user` stores: the given key, or a freshly generated one,
      lower-cased. */
  function NewUserKey(key: Option<string>, draw: nat -> nat): (k: string)
    ensures IsLower(k)
    ensures key.Some? ==> k == Lower(key.value)
    ensures key.None? ==> Models.IsValidKey(k) && k == Models.GenerateUserKey(draw)
  {
    if key.Some? then
      LowerFacts(key.value);
      Lower(key.value)
    else
      var g := Models.GenerateUserKey(draw);
      Models.GeneratedKeyIsValid(draw);
      LowerOfLower(g);
      Lower(g)
  }

  /** `create_user`: inserts a user with the new key, or fails on the
      uniqueness of `users.key` and changes nothing. */
  method CreateUser(db: Store, key: Option<string>, draw: nat -> nat, now: Time) returns (r: Result<User, DbError>)
    requires db.Valid()
    modifies db
    ensures db.Valid()
    ensures r.Failure? <==> KeyTaken(old(db.users), NewUserKey(key, draw))
    ensures r.Failure? ==> r.error == IntegrityError(UniqueUserKey) && db.Snapshot() == old(db.Snapshot())
    ensures r.Success? ==>
      r.value.id !in old(db.users) && r.value.key == NewUserKey(key, draw) && r.value.createdAt == now &&
      db.Snapshot() == old(db.Snapshot()).(users := old(db.users)[r.value.id := UserRow(r.value.key, now)])
  {
    var k := NewUserKey(key, draw);
    if exists u | u in db.users :: db.users[u].key == k {
      return Failure(IntegrityError(UniqueUserKey));
    }
    var id := NextRowId(db.users.Keys);
    db.users := db.users[id := UserRow(k, now)];
    r := Success(User(id, k, now));
  }

  /** `get_or_create_user`: the user with the lower-cased key if there is one
      (nothing changes), otherwise exactly one new user with that key. */
  method GetOrCreateUser(db: Store, key: string, now: Time) returns (r: User)
    requires db.Valid()
    modifies db
    ensures db.Valid()
    ensures r.key == Lower(key) && r.id in db.users && db.users[r.id] == UserRow(r.key, r.createdAt)
    ensures KeyTaken(old(db.users), Lower(key)) ==> db.Snapshot() == old(db.Snapshot())
    ensures !KeyTaken(old(db.users), Lower(key)) ==>
      r.id !in old(db.users) && r.createdAt == now &&
      db.Snapshot() == old(db.Snapshot()).(users := old(db.users)[r.id := UserRow(r.key, now)])
  {
    var found := GetUserByKey(db, key);
    if found.Some? {
      return found.value;
    }
    var created := CreateUser(db, Some(key), _ => 0, now);
    assert created.Success?;
    r := created.value;
  }

  // ============== Labels ==============

  /** The label rows of feeds other than `feedId`. */
  function LabelsExcept(labels: set<(Id, string)>, feedId: Id): (r: set<(Id, string)>)
    ensures forall p :: p in r <==> p in labels && p.0 != feedId
  {
    set p | p in labels && p.0 != feedId
  }

  /** The label rows after `set_feed_labels(feedId, given)`: every other
      feed's rows as they were, and for `feedId` exactly the lower-cased
      given labels, each once. */
  function ReplaceLabels(labels: set<(Id, string)>, feedId: Id, given: seq<string>): (r: set<(Id, string)>)
    ensures forall p | p in labels && p.0 != feedId :: p in r
    ensures forall p | p in r && p.0 != feedId :: p in labels
    ensures forall l :: (feedId, l) in r <==> exists i | 0 <= i < |given| :: Lower(given[i]) == l
  {
    LabelsExcept(labels, feedId) + LabelRows(feedId, given, |given|)
  }

  /** The rows of the first `n` given labels, lower-cased. */
  function LabelRows(feedId: Id, given: seq<string>, n: nat): (r: set<(Id, string)>)
    requires n <= |given|
    ensures forall l :: (feedId, l) in r <==> exists i | 0 <= i < n :: Lower(given[i]) == l
    ensures forall p | p in r :: p.0 == feedId
  {
    set i | 0 <= i < n :: (feedId, Lower(given[i]))
  }

  /** One more label adds its row. */
  lemma LabelRowsNext(feedId: Id, given: seq<string>, n: nat)
    requires n < |given|
    ensures LabelRows(feedId, given, n + 1) == LabelRows(feedId, given, n) + {(feedId, Lower(given[n]))}
  {
  }

  /** Replacing the labels of an existing feed keeps the tables consistent. */
  lemma ReplaceLabelsConsistent(t: Tables, feedId: Id, given: seq<string>)
    requires Consistent(t) && feedId in t.feeds
    ensures Consistent(t.(labels := ReplaceLabels(t.labels, feedId, given)))
  {
    var r := ReplaceLabels(t.labels, feedId, given);
    forall p | p in r ensures p.0 in t.feeds && IsLower(p.1) {
      if p.0 == feedId {
        var i :| 0 <= i < |given| && Lower(given[i]) == p.1;
        LowerFacts(given[i]);
      }
    }
  }

  /** `get_feed_labels`: the feed's labels in BINARY order. */
  method GetFeedLabels(db: Store, feedId: Id) returns (r: seq<string>)
    ensures Ascending(r)
    ensures forall l :: l in r <==> (feedId, l) in db.labels
  {
    var s := set p | p in db.labels && p.0 == feedId :: p.1;
    r := SortTexts(s);
  }

  /** `set_feed_labels` with the labels treated as a set: the feed's rows are
      deleted, then each lower-cased label is inserted unless an earlier one
      already inserted it. Inserting for a missing feed breaks the foreign
      key; then nothing changes. */
  method SetFeedLabels(db: Store, feedId: Id, labels: seq<string>) returns (r: Result<(), DbError>)
    requires db.Valid()
    modifies db
    ensures db.Valid()
    ensures r.Failure? <==> feedId !in old(db.feeds) && labels != []
    ensures r.Failure? ==> r.error == IntegrityError(ForeignKeyFailed) && db.Snapshot() == old(db.Snapshot())
    ensures r.Success? ==> db.Snapshot() == old(db.Snapshot()).(labels := ReplaceLabels(old(db.labels), feedId, labels))
  {
    if feedId !in db.feeds && labels != [] {
      return Failure(IntegrityError(ForeignKeyFailed));
    }
    ghost var t := db.Snapshot();
    var kept := LabelsExcept(db.labels, feedId);
    db.labels := kept;
    var i := 0;
    while i < |labels|
      invariant i <= |labels|
      invariant db.Snapshot() == t.(labels := kept + LabelRows(feedId, labels, i))
    {
      LabelRowsNext(feedId, labels, i);
      db.labels := db.labels + {(feedId, Lower(labels[i]))};
      i := i + 1;
    }
    if feedId in t.feeds {
      ReplaceLabelsConsistent(t, feedId, labels);
    } else {
      assert db.labels == t.labels;
    }
    r := Success(());
  }

  /** The insert loop of `set_feed_labels` as written: each pair is inserted
      as it comes, and inserting a pair that is already present breaks the
      table's primary key. */
  function InsertLabelsAsWritten(rows: set<(Id, string)>, feedId: Id, labels: seq<string>): (r: Result<set<(Id, string)>, DbError>)
    ensures r.Success? ==> r.value == rows + set i | 0 <= i < |labels| :: (feedId, Lower(labels[i]))
    decreases |labels|
  {
    if labels == [] then Success(rows)
    else if (feedId, Lower(labels[0])) in rows then Failure(IntegrityError(UniqueFeedLabel))
    else
      var r := InsertLabelsAsWritten(rows + {(feedId, Lower(labels[0]))}, feedId, labels[1..]);
      if r.Success? then
        assert (set i | 0 <= i < |labels| :: (feedId, Lower(labels[i]))) ==
          {(feedId, Lower(labels[0]))} + set i | 0 <= i < |labels[1..]| :: (feedId, Lower(labels[1..][i]));
        r
      else r
  }

  /** `set_feed_labels` as written: delete the feed's rows, then insert. */
  function SetLabelsAsWritten(labels: set<(Id, string)>, feedId: Id, given: seq<string>): (r: Result<set<(Id, string)>, DbError>)
    ensures r.Success? ==> r.value == ReplaceLabels(labels, feedId, given)
  {
    InsertLabelsAsWritten(LabelsExcept(labels, feedId), feedId, given)
  }

  /** Two positions of `s` hold labels that are equal once lower-cased. */
  predicate RepeatsIgnoringCase(s: seq<string>) {
    exists i, j | 0 <= i < j < |s| :: Lower(s[i]) == Lower(s[j])
  }

  /** The insert loop fails exactly when a label repeats, ignoring case, or
      is already present. */
  lemma {:induction false} InsertLabelsAsWrittenFails(rows: set<(Id, string)>, feedId: Id, labels: seq<string>)
    ensures InsertLabelsAsWritten(rows, feedId, labels).Failure? <==>
      RepeatsIgnoringCase(labels) || exists i | 0 <= i < |labels| :: (feedId, Lower(labels[i])) in rows
    decreases |labels|
  {
    if labels != [] {
      var x := (feedId, Lower(labels[0]));
      var tail := labels[1..];
      InsertLabelsAsWrittenFails(rows + {x}, feedId, tail);
      if x !in rows {
        if RepeatsIgnoringCase(labels) {
          var i, j :| 0 <= i < j < |labels| && Lower(labels[i]) == Lower(labels[j]);
          if i == 0 {
            assert (feedId, Lower(tail[j - 1])) in rows + {x};
          } else {
            assert Lower(tail[i - 1]) == Lower(tail[j - 1]);
          }
        }
        if RepeatsIgnoringCase(tail) {
          var i, j :| 0 <= i < j < |tail| && Lower(tail[i]) == Lower(tail[j]);
          assert Lower(labels[i + 1]) == Lower(labels[j + 1]);
        }
        if i :| 0 <= i < |tail| && (feedId, Lower(tail[i])) in rows + {x} {
          if (feedId, Lower(tail[i])) in rows {
            assert (feedId, Lower(labels[i + 1])) in rows;
          } else {
            assert Lower(labels[0]) == Lower(labels[i + 1]);
          }
        }
        if i :| 0 <= i < |labels| && (feedId, Lower(labels[i])) in rows {
          assert i != 0;
          assert (feedId, Lower(tail[i - 1])) in rows + {x};
        }
      }
    }
  }

  /** With no repeated label, ignoring case, the loop as written does what
      the set semantics does; with a repeat, such as "tech" and "Tech", it
      fails on the second insert. */
  lemma SetLabelsAsWrittenFailsOnRepeat(labels: set<(Id, string)>, feedId: Id, given: seq<string>)
    ensures SetLabelsAsWritten(labels, feedId, given).Failure? <==> RepeatsIgnoringCase(given)
    ensures !RepeatsIgnoringCase(given) ==>
      SetLabelsAsWritten(labels, feedId, given) == Success(ReplaceLabels(labels, feedId, given))
  {
    InsertLabelsAsWrittenFails(LabelsExcept(labels, feedId), feedId, given);
  }

  /** The concrete input that shows the failure. */
  lemma SetLabelsAsWrittenRejectsTechTech()
    ensures SetLabelsAsWritten({}, 1, ["tech", "Tech"]).Failure?
  {
    var given := ["tech", "Tech"];
    assert Lower(given[0]) == Lower(given[1]);
    SetLabelsAsWrittenFailsOnRepeat({}, 1, given);
  }

  /** `get_all_user_labels`: the distinct labels over the user's feeds only,
      in BINARY order. */
  method GetAllUserLabels(db: Store, userId: Id) returns (r: seq<string>)
    ensures Ascending(r)
    ensures forall l :: l in r <==>
      exists f | f in db.feeds && db.feeds[f].userId == userId :: (f, l) in db.labels
  {
    var s := set p | p in db.labels && p.0 in db.feeds && db.feeds[p.0].userId == userId :: p.1;
    r := SortTexts(s);
    forall l ensures l in r <==> exists f | f in db.feeds && db.feeds[f].userId == userId :: (f, l) in db.labels {
      if l in r {
        var p :| p in db.labels && p.0 in db.feeds && db.feeds[p.0].userId == userId && p.1 == l;
        assert (p.0, l) in db.labels;
      }
    }
  }

  // ============== Feeds ==============

  /** The articles of `feedId`. */
  function ArticlesOf(articles: map<Id, ArticleRow>, feedId: Id): set<Id> {
    set a | a in articles && articles[a].feedId == feedId
  }

  /** `v` is what the feed queries report for the feed `v.id`: its current
      row, its labels in order, and the number of its articles. */
  ghost predicate IsFeedView(t: Tables, v: Feed) {
    v.id in t.feeds && v.row == t.feeds[v.id] &&
    Ascending(v.labels) && (forall l :: l in v.labels <==> (v.id, l) in t.labels) &&
    v.articleCount == |ArticlesOf(t.articles, v.id)|
  }

  /** `get_feed`: the feed with its labels and article count, or None. */
  method GetFeed(db: Store, feedId: Id) returns (r: Option<Feed>)
    ensures r.Some? <==> feedId in db.feeds
    ensures r.Some? ==> r.value.id == feedId && IsFeedView(db.Snapshot(), r.value)
  {
    if feedId !in db.feeds {
      return None;
    }
    var labels := GetFeedLabels(db, feedId);
    r := Some(Feed(feedId, db.feeds[feedId], labels, |ArticlesOf(db.articles, feedId)|));
  }

  /** `create_feed`: inserts the feed (no title, never fetched) for an
      existing user whose feeds do not have this URL yet, then sets its
      labels when any are given; otherwise nothing changes. */
  method CreateFeed(db: Store, userId: Id, url: string, labels: seq<string>, now: Time) returns (r: Result<Feed, DbError>)
    requires db.Valid()
    modifies db
    ensures db.Valid()
    ensures userId !in old(db.users) ==> r == Failure(IntegrityError(ForeignKeyFailed))
    ensures userId in old(db.users) ==>
      (r.Failure? <==> exists f | f in old(db.feeds) :: old(db.feeds)[f].userId == userId && old(db.feeds)[f].url == url)
    ensures r.Failure? ==> db.Snapshot() == old(db.Snapshot())
    ensures r.Success? ==>
      r.value.id !in old(db.feeds) && IsFeedView(db.Snapshot(), r.value) && r.value.articleCount == 0 &&
      db.Snapshot() == old(db.Snapshot()).(
        feeds := old(db.feeds)[r.value.id := FeedRow(userId, url, None, None, now)],
        labels := ReplaceLabels(old(db.labels), r.value.id, labels))
  {
    if userId !in db.users {
      return Failure(IntegrityError(ForeignKeyFailed));
    }
    if exists f | f in db.feeds :: db.feeds[f].userId == userId && db.feeds[f].url == url {
      return Failure(IntegrityError(UniqueFeedUrl));
    }
    ghost var t := db.Snapshot();
    var feedId := NextRowId(db.feeds.Keys);
    var row := FeedRow(userId, url, None, None, now);
    AddFeedConsistent(t, feedId, row);
    db.feeds := db.feeds[feedId := row];
    assert db.Snapshot() == t.(feeds := t.feeds[feedId := row]);
    if labels != [] {
      var _ := SetFeedLabels(db, feedId, labels);
    } else {
      assert ReplaceLabels(t.labels, feedId, labels) == t.labels;
    }
    var feed := GetFeed(db, feedId);
    r := Success(feed.value);
  }

  /** The user already has a feed at `url`. */
  predicate HasFeedUrl(feeds: map<Id, FeedRow>, userId: Id, url: string) {
    exists f | f in feeds :: feeds[f].userId == userId && feeds[f].url == url
  }

  /** `create_feed` as written, on table values: the feed row is inserted and
      committed first, then `set_feed_labels` runs as written. When that
      raises, the committed feed row stays and the error reaches the caller.
      `feedId` is the id the new row receives. */
  function CreateFeedAsWritten(t: Tables, feedId: Id, userId: Id, url: string, labels: seq<string>, now: Time)
      : (r: (Tables, Result<Id, DbError>))
    requires Consistent(t) && feedId !in t.feeds
    ensures userId !in t.users ==> r == (t, Failure(IntegrityError(ForeignKeyFailed)))
    ensures userId in t.users && HasFeedUrl(t.feeds, userId, url) ==> r == (t, Failure(IntegrityError(UniqueFeedUrl)))
    ensures userId in t.users && !HasFeedUrl(t.feeds, userId, url) ==>
      var added := t.(feeds := t.feeds[feedId := FeedRow(userId, url, None, None, now)]);
      (r.1.Failure? <==> RepeatsIgnoringCase(labels)) &&
      (r.1.Failure? ==> r.0 == added) &&
      (r.1.Success? ==> r.1.value == feedId && r.0 == added.(labels := ReplaceLabels(t.labels, feedId, labels)))
  {
    if userId !in t.users then (t, Failure(IntegrityError(ForeignKeyFailed)))
    else if HasFeedUrl(t.feeds, userId, url) then (t, Failure(IntegrityError(UniqueFeedUrl)))
    else
      var row := FeedRow(userId, url, None, None, now);
      AddFeedConsistent(t, feedId, row);
      var added := t.(feeds := t.feeds[feedId := row]);
      if labels == [] then
        assert ReplaceLabels(t.labels, feedId, labels) == t.labels;
        (added, Success(feedId))
      else
        SetLabelsAsWrittenFailsOnRepeat(t.labels, feedId, labels);
        match SetLabelsAsWritten(t.labels, feedId, labels)
        case Success(rows) => (added.(labels := rows), Success(feedId))
        case Failure(e) => (added, Failure(e))
  }

  /** A feed row under a new id, for an existing user without a feed at
      its url, keeps the tables consistent; the new feed has no labels and
      no articles yet. */
  lemma AddFeedConsistent(t: Tables, feedId: Id, row: FeedRow)
    requires Consistent(t) && feedId !in t.feeds && row.userId in t.users
    requires forall f | f in t.feeds :: !(t.feeds[f].userId == row.userId && t.feeds[f].url == row.url)
    ensures Consistent(t.(feeds := t.feeds[feedId := row]))
    ensures LabelsExcept(t.labels, feedId) == t.labels
    ensures ArticlesOf(t.articles, feedId) == {}
  {
  }

  /** The article rows other than `gone`. */
  function RemoveArticles(articles: map<Id, ArticleRow>, gone: set<Id>): (r: map<Id, ArticleRow>)
    ensures forall a :: a in r <==> a in articles && a !in gone
    ensures forall a | a in r :: r[a] == articles[a]
  {
    map a | a in articles && a !in gone :: articles[a]
  }

  /** The read marks of articles other than `gone` (ON DELETE CASCADE). */
  function RemoveReadMarks(readMarks: map<(Id, Id), Time>, gone: set<Id>): (r: map<(Id, Id), Time>)
    ensures forall k :: k in r <==> k in readMarks && k.1 !in gone
    ensures forall k | k in r :: r[k] == readMarks[k]
  {
    map k | k in readMarks && k.1 !in gone :: readMarks[k]
  }

  /** The tables after deleting the articles `gone` and, with them, their
      read marks; every other row stays as it was. */
  function DropArticles(t: Tables, gone: set<Id>): (r: Tables)
    ensures r.users == t.users && r.feeds == t.feeds && r.labels == t.labels
    ensures r.articles == RemoveArticles(t.articles, gone)
    ensures r.readMarks == RemoveReadMarks(t.readMarks, gone)
  {
    t.(articles := RemoveArticles(t.articles, gone), readMarks := RemoveReadMarks(t.readMarks, gone))
  }

  /** The tables after `DELETE FROM feeds WHERE id = feedId`: the feed, its
      labels, its articles and their read marks are gone; nothing refers to
      the feed any more. */
  function DeleteFeedTables(t: Tables, feedId: Id): (r: Tables)
    ensures feedId !in r.feeds && r.users == t.users
    ensures forall p | p in r.labels :: p.0 != feedId
    ensures forall a | a in r.articles :: r.articles[a].feedId != feedId
    ensures r.feeds == t.feeds - {feedId}
    ensures r.labels == LabelsExcept(t.labels, feedId)
    ensures r.articles == RemoveArticles(t.articles, ArticlesOf(t.articles, feedId))
    ensures r.readMarks == RemoveReadMarks(t.readMarks, ArticlesOf(t.articles, feedId))
    ensures forall a | a in t.articles && t.articles[a].feedId != feedId :: a in r.articles && r.articles[a] == t.articles[a]
    ensures forall k | k in t.readMarks && k.1 in t.articles && t.articles[k.1].feedId != feedId :: k in r.readMarks && r.readMarks[k] == t.readMarks[k]
  {
    var d := DropArticles(t, ArticlesOf(t.articles, feedId));
    d.(feeds := t.feeds - {feedId}, labels := LabelsExcept(t.labels, feedId))
  }

  /** Deleting a feed, with its cascades, keeps the tables consistent. */
  lemma DeleteFeedConsistent(t: Tables, feedId: Id)
    requires Consistent(t)
    ensures Consistent(DeleteFeedTables(t, feedId))
  {
  }

  /** `delete_feed`: true exactly when the feed existed; afterwards the
      tables are those of `DeleteFeedTables`. */
  method DeleteFeed(db: Store, feedId: Id) returns (deleted: bool)
    requires db.Valid()
    modifies db
    ensures db.Valid()
    ensures deleted == (feedId in old(db.feeds))
    ensures db.Snapshot() == DeleteFeedTables(old(db.Snapshot()), feedId)
  {
    DeleteFeedConsistent(db.Snapshot(), feedId);
    deleted := feedId in db.feeds;
    var gone := ArticlesOf(db.articles, feedId);
    db.readMarks := RemoveReadMarks(db.readMarks, gone);
    db.articles := RemoveArticles(db.articles, gone);
    db.labels := LabelsExcept(db.labels, feedId);
    db.feeds := db.feeds - {feedId};
  }

  /** The sort key of a feed title: NULL before any text, as SQLite sorts. */
  function TitleKey(title: Option<string>): seq<int> {
    if title.None? then [0] else [1] + StringKey(title.value)
  }

  /** The sort key of `ORDER BY f.title, f.url`. */
  function FeedKey(row: FeedRow): seq<int> {
    TitleKey(row.title) + StringKey(row.url)
  }

  /** Title order: NULL first, then BINARY text order. */
  predicate TitleLt(a: Option<string>, b: Option<string>) {
    (a.None? && b.Some?) || (a.Some? && b.Some? && TextLt(a.value, b.value))
  }

  /** `f` comes before `g` under `ORDER BY f.title, f.url`. */
  predicate FeedPrecedes(f: FeedRow, g: FeedRow) {
    TitleLt(f.title, g.title) || (f.title == g.title && TextLt(f.url, g.url))
  }

  /** The feed key orders feeds exactly as `ORDER BY f.title, f.url`. */
  lemma FeedKeyOrder(f: FeedRow, g: FeedRow)
    ensures LexLt(FeedKey(f), FeedKey(g)) <==> FeedPrecedes(f, g)
  {
    var a, b := TitleKey(f.title), TitleKey(g.title);
    if f.title == g.title {
      LexLtCommonPrefix(a, StringKey(f.url), StringKey(g.url));
      if f.title.Some? {
        LexLtIrreflexive(StringKey(f.title.value));
      }
    } else {
      if f.title.Some? && g.title.Some? {
        StringKeysDiverge(f.title.value, g.title.value);
        assert a[1..] == StringKey(f.title.value) && b[1..] == StringKey(g.title.value);
        LexLtCommonPrefix([1], StringKey(f.title.value), StringKey(g.title.value));
      }
      assert Diverge(a, b);
      LexLtDiverge(a, b, StringKey(f.url), StringKey(g.url));
    }
  }

  /** Feeds with the same key have the same title and URL. */
  lemma FeedKeyInjective(f: FeedRow, g: FeedRow)
    requires FeedKey(f) == FeedKey(g)
    ensures f.title == g.title && f.url == g.url
  {
    LexLtIrreflexive(FeedKey(f));
    FeedKeyOrder(f, g);
    FeedKeyOrder(g, f);
    if f.title != g.title && f.title.Some? && g.title.Some? {
      TextLtTotal(f.title.value, g.title.value);
    }
    TextLtTotal(f.url, g.url);
  }

  /** The sort key of each feed id. */
  function FeedKeys(feeds: map<Id, FeedRow>): Id -> seq<int> {
    f => if f in feeds then FeedKey(feeds[f]) else []
  }

  /** The ids `ids` of feeds of one user, in `ORDER BY f.title, f.url` order. */
  method SortFeedIds(feeds: map<Id, FeedRow>, ids: set<Id>) returns (sorted: seq<Id>)
    requires ids <= feeds.Keys
    requires forall f, g | f in ids && g in ids && feeds[f].url == feeds[g].url :: f == g
    ensures |sorted| == |ids| && forall f :: f in sorted <==> f in ids
    ensures forall i, j | 0 <= i < j < |sorted| :: FeedPrecedes(feeds[sorted[i]], feeds[sorted[j]])
  {
    var key := FeedKeys(feeds);
    forall x, y | x in ids && y in ids && key(x) == key(y) ensures x == y {
      FeedKeyInjective(feeds[x], feeds[y]);
    }
    sorted := SortByKey(ids, key);
    forall i, j | 0 <= i < j < |sorted| ensures FeedPrecedes(feeds[sorted[i]], feeds[sorted[j]]) {
      assert sorted[i] in ids && sorted[j] in ids;
      FeedKeyOrder(feeds[sorted[i]], feeds[sorted[j]]);
    }
  }

  /** `get_user_feeds`: every feed of the user, once, each with its labels
      and article count, in `ORDER BY f.title, f.url` order. */
  method GetUserFeeds(db: Store, userId: Id) returns (r: seq<Feed>)
    requires db.Valid()
    ensures forall i | 0 <= i < |r| :: IsFeedView(db.Snapshot(), r[i]) && r[i].row.userId == userId
    ensures forall f | f in db.feeds && db.feeds[f].userId == userId :: exists i | 0 <= i < |r| :: r[i].id == f
    ensures forall i, j | 0 <= i < j < |r| :: FeedPrecedes(r[i].row, r[j].row)
  {
    var feeds := db.feeds;
    var ids := set f | f in feeds && feeds[f].userId == userId;
    var sorted := SortFeedIds(feeds, ids);
    r := [];
    var i := 0;
    while i < |sorted|
      invariant i <= |sorted| && |r| == i
      invariant forall j | 0 <= j < i :: r[j].id == sorted[j] && IsFeedView(db.Snapshot(), r[j]) && r[j].row.userId == userId
    {
      assert sorted[i] in ids;
      var feed := GetFeed(db, sorted[i]);
      r := r + [feed.value];
      i := i + 1;
    }
    forall f | f in feeds && feeds[f].userId == userId ensures exists i | 0 <= i < |r| :: r[i].id == f {
      assert f in ids && f in sorted;
      var k :| 0 <= k < |sorted| && sorted[k] == f;
      assert r[k].id == f;
    }
  }

  // ============== Articles ==============

  /** The sort key of `ORDER BY a.published_at DESC NULLS LAST,
      a.fetched_at DESC`; rows equal on both come newest id first. */
  function ArticleKey(id: Id, a: ArticleRow): (k: seq<int>)
    ensures |k| == 4 && k[3] == -(id as int)
  {
    (if a.publishedAt.Some? then [0, -a.publishedAt.value] else [1, 0]) + [-a.fetchedAt, -(id as int)]
  }

  /** `a` comes strictly before `b` under `ORDER BY a.published_at DESC
      NULLS LAST, a.fetched_at DESC`. */
  predicate ArticlePrecedes(a: ArticleRow, b: ArticleRow) {
    (a.publishedAt.Some? && b.publishedAt.None?) ||
    (a.publishedAt.Some? && b.publishedAt.Some? && a.publishedAt.value > b.publishedAt.value) ||
    (a.publishedAt == b.publishedAt && a.fetchedAt > b.fetchedAt)
  }

  /** The article key refines the SQL order: it puts `a` first whenever the
      SQL order does, and otherwise only breaks ties between rows the SQL
      order leaves unordered. */
  lemma ArticleKeyOrder(i: Id, a: ArticleRow, j: Id, b: ArticleRow)
    ensures ArticlePrecedes(a, b) ==> LexLt(ArticleKey(i, a), ArticleKey(j, b))
    ensures LexLt(ArticleKey(i, a), ArticleKey(j, b)) ==>
      ArticlePrecedes(a, b) || (a.publishedAt == b.publishedAt && a.fetchedAt == b.fetchedAt && i > j)
  {
    LexLtOfFour(ArticleKey(i, a), ArticleKey(j, b));
  }

  /** `LexLt` on keys of four columns, written out. */
  lemma LexLtOfFour(p: seq<int>, q: seq<int>)
    requires |p| == 4 && |q| == 4
    ensures LexLt(p, q) <==>
      p[0] < q[0] || (p[0] == q[0] && (p[1] < q[1] || (p[1] == q[1] &&
        (p[2] < q[2] || (p[2] == q[2] && p[3] < q[3])))))
  {
    assert LexLt(p[3..], q[3..]) <==> p[3] < q[3] by {
      assert p[3..][1..] == [] && q[3..][1..] == [];
    }
    assert p[2..][1..] == p[3..] && q[2..][1..] == q[3..];
    assert LexLt(p[2..], q[2..]) <==> p[2] < q[2] || (p[2] == q[2] && LexLt(p[3..], q[3..]));
    assert p[1..][1..] == p[2..] && q[1..][1..] == q[2..];
    assert LexLt(p[1..], q[1..]) <==> p[1] < q[1] || (p[1] == q[1] && LexLt(p[2..], q[2..]));
  }

  /** The sort key of each article id. */
  function ArticleKeys(articles: map<Id, ArticleRow>): Id -> seq<int> {
    a => if a in articles then ArticleKey(a, articles[a]) else []
  }

  /** The label filter of `get_articles`: none for a missing or empty label,
      otherwise the lower-cased label. */
  function LabelFilter(onlyLabel: Option<string>): (r: Option<string>)
    ensures r.Some? <==> onlyLabel.Some? && onlyLabel.value != []
    ensures r.Some? ==> r.value == Lower(onlyLabel.value) && IsLower(r.value)
  {
    if onlyLabel.Some? && onlyLabel.value != [] then
      LowerFacts(onlyLabel.value);
      Some(Lower(onlyLabel.value))
    else None
  }

  /** Article `a` is in the user's list: it belongs to one of the user's
      feeds, it is unread by the user when `hideRead`, and its feed carries
      the label when one is asked for. */
  predicate Listed(t: Tables, userId: Id, hideRead: bool, onlyLabel: Option<string>, a: Id) {
    a in t.articles && t.articles[a].feedId in t.feeds &&
    t.feeds[t.articles[a].feedId].userId == userId &&
    (hideRead ==> (userId, a) !in t.readMarks) &&
    (LabelFilter(onlyLabel).Some? ==> (t.articles[a].feedId, LabelFilter(onlyLabel).value) in t.labels)
  }

  /** Article `a` as the user sees it: with its feed's title, and read
      exactly when the user has a read mark on it. */
  function ArticleItem(t: Tables, userId: Id, a: Id): (r: Article)
    requires a in t.articles && t.articles[a].feedId in t.feeds
    ensures r.id == a && r.row == t.articles[a]
    ensures r.isRead <==> (userId, a) in t.readMarks
  {
    Article(a, t.articles[a], t.feeds[t.articles[a].feedId].title, (userId, a) in t.readMarks)
  }

  /** An article of the list: the list query does not select the content. */
  function Brief(x: Article): Article {
    x.(row := x.row.(content := None))
  }

  const PerPage: nat := Config.ArticlesPerPage

  /** `max(1, ceil(total_count / per_page))`. */
  function TotalPages(n: nat): (p: nat)
    ensures p >= 1
    ensures n == 0 ==> p == 1
    ensures n > 0 ==> (p - 1) * PerPage < n <= p * PerPage
  {
    var c := (n + PerPage - 1) / PerPage;
    if c < 1 then 1 else c
  }

  /** Where `LIMIT per_page OFFSET (page - 1) * per_page` starts in a list of
      `n`; SQLite reads a negative offset as 0. */
  function PageStart(page: int, n: nat): (s: nat)
    ensures s <= n
    ensures page <= 1 ==> s == 0
    ensures page >= 1 && (page - 1) * PerPage <= n ==> s == (page - 1) * PerPage
    ensures (page - 1) * PerPage >= n ==> s == n
  {
    var offset := (page - 1) * PerPage;
    if offset <= 0 then 0 else if offset >= n then n else offset
  }

  /** Where that page ends: at most `per_page` after its start. */
  function PageEnd(page: int, n: nat): (e: nat)
    ensures PageStart(page, n) <= e <= n
    ensures e - PageStart(page, n) <= PerPage
    ensures e - PageStart(page, n) == PerPage || e == n
  {
    var s := PageStart(page, n);
    if s + PerPage <= n then s + PerPage else n
  }

  /** For a page number of at least 1, there is a next page exactly when
      articles remain after this one. */
  lemma HasNextExactlyWhenMoreRemain(page: int, n: nat)
    requires page >= 1
    ensures page < TotalPages(n) <==> page * PerPage < n
  {
    var p := TotalPages(n);
    if n > 0 {
      if page < p {
        assert page <= p - 1;
        assert page * PerPage <= (p - 1) * PerPage;
      } else {
        assert page * PerPage >= p * PerPage;
      }
    }
  }

  /** The pages 1 to `TotalPages(n)` cover the list: article `k` is on page
      `k / per_page + 1`. */
  lemma EveryArticleOnAPage(n: nat, k: nat)
    requires k < n
    ensures var page := k / PerPage + 1;
      page <= TotalPages(n) && PageStart(page, n) <= k < PageEnd(page, n)
  {
    var page := k / PerPage + 1;
    var p := TotalPages(n);
    assert (page - 1) * PerPage <= k;
    assert k < page * PerPage;
  }

  /** `ids` is the user's list: every listed article exactly once, in an
      order that never puts an article before one the SQL order puts first,
      with the article key deciding. */
  ghost predicate IsArticleList(t: Tables, userId: Id, hideRead: bool, onlyLabel: Option<string>, ids: seq<Id>) {
    (forall i | 0 <= i < |ids| :: Listed(t, userId, hideRead, onlyLabel, ids[i])) &&
    (forall a | Listed(t, userId, hideRead, onlyLabel, a) :: a in ids) &&
    SortedBy(ids, ArticleKeys(t.articles)) &&
    (forall i, j | 0 <= i < j < |ids| :: !ArticlePrecedes(t.articles[ids[j]], t.articles[ids[i]]))
  }

  /** The ids the article queries select, sorted by `ORDER BY
      a.published_at DESC NULLS LAST, a.fetched_at DESC`. */
  method ListArticleIds(t: Tables, userId: Id, hideRead: bool, onlyLabel: Option<string>) returns (sorted: seq<Id>)
    ensures IsArticleList(t, userId, hideRead, onlyLabel, sorted)
  {
    var ids := set a | a in t.articles && Listed(t, userId, hideRead, onlyLabel, a);
    var key := ArticleKeys(t.articles);
    forall x, y | x in ids && y in ids && key(x) == key(y) ensures x == y {
      assert key(x)[3] == -(x as int) && key(y)[3] == -(y as int);
    }
    sorted := SortByKey(ids, key);
    forall i | 0 <= i < |sorted| ensures Listed(t, userId, hideRead, onlyLabel, sorted[i]) {
      assert sorted[i] in ids;
    }
    forall i, j | 0 <= i < j < |sorted| ensures !ArticlePrecedes(t.articles[sorted[j]], t.articles[sorted[i]]) {
      assert sorted[i] in ids && sorted[j] in ids;
      ArticleKeyOrder(sorted[j], t.articles[sorted[j]], sorted[i], t.articles[sorted[i]]);
      LexLtIrreflexive(key(sorted[i]));
      if LexLt(key(sorted[j]), key(sorted[i])) {
        LexLtTransitive(key(sorted[i]), key(sorted[j]), key(sorted[i]));
      }
    }
  }

  /** Every article of the list can be shown: its row and its feed exist. */
  lemma ListedAreShown(t: Tables, userId: Id, hideRead: bool, onlyLabel: Option<string>, ids: seq<Id>)
    requires forall i | 0 <= i < |ids| :: Listed(t, userId, hideRead, onlyLabel, ids[i])
    ensures forall i | 0 <= i < |ids| :: ids[i] in t.articles && t.articles[ids[i]].feedId in t.feeds
  {
  }

  /** The articles `ids[start..end]` as the list shows them. */
  function PageItems(t: Tables, userId: Id, ids: seq<Id>, start: nat, end: nat): (items: seq<Article>)
    requires start <= end <= |ids|
    requires forall i | 0 <= i < |ids| :: ids[i] in t.articles && t.articles[ids[i]].feedId in t.feeds
    ensures |items| == end - start
    ensures forall i | 0 <= i < |items| :: items[i] == Brief(ArticleItem(t, userId, ids[start + i]))
  {
    seq(end - start, i requires 0 <= i < end - start => Brief(ArticleItem(t, userId, ids[start + i])))
  }

  /** `get_articles`: `all` is the user's whole list; the page is its slice
      at `(page - 1) * per_page` of at most `per_page` articles, without
      content; the count is of distinct articles. */
  method GetArticles(db: Store, userId: Id, page: int, hideRead: bool, onlyLabel: Option<string>)
      returns (r: Page, ghost all: seq<Id>)
    requires db.Valid()
    ensures IsArticleList(db.Snapshot(), userId, hideRead, onlyLabel, all)
    ensures r.page == page && r.totalCount == |all| && r.totalPages == TotalPages(|all|)
    ensures r.hasPrev == (page > 1) && r.hasNext == (page < r.totalPages)
    ensures |r.articles| == PageEnd(page, |all|) - PageStart(page, |all|) <= PerPage
    ensures forall i | 0 <= i < |r.articles| ::
      r.articles[i] == Brief(ArticleItem(db.Snapshot(), userId, all[PageStart(page, |all|) + i]))
  {
    var t := db.Snapshot();
    var sorted := ListArticleIds(t, userId, hideRead, onlyLabel);
    all := sorted;
    var n := |sorted|;
    var start, end := PageStart(page, n), PageEnd(page, n);
    ListedAreShown(t, userId, hideRead, onlyLabel, sorted);
    var items := PageItems(t, userId, sorted, start, end);
    var total := TotalPages(n);
    r := Page(items, page, total, n, page > 1, page < total);
  }

  /** `get_article`: the article with its content, whichever user asks. */
  method GetArticle(db: Store, articleId: Id, userId: Id) returns (r: Option<Article>)
    requires db.Valid()
    ensures r.Some? <==> articleId in db.articles
    ensures r.Some? ==> r.value == ArticleItem(db.Snapshot(), userId, articleId)
  {
    if articleId !in db.articles {
      return None;
    }
    r := Some(ArticleItem(db.Snapshot(), userId, articleId));
  }

  /** The read marks after `INSERT OR IGNORE` of `(userId, articleId)`: the
      pair is marked, and a mark already there keeps its time. */
  function MarkedRead(readMarks: map<(Id, Id), Time>, userId: Id, articleId: Id, now: Time): (r: map<(Id, Id), Time>)
    ensures (userId, articleId) in r
    ensures forall k | k in readMarks :: k in r && r[k] == readMarks[k]
    ensures forall k | k in r :: k in readMarks || k == (userId, articleId)
  {
    if (userId, articleId) in readMarks then readMarks else readMarks[(userId, articleId) := now]
  }

  /** Marking an article read twice is marking it once. */
  lemma MarkedReadIdempotent(readMarks: map<(Id, Id), Time>, userId: Id, articleId: Id, t1: Time, t2: Time)
    ensures MarkedRead(MarkedRead(readMarks, userId, articleId, t1), userId, articleId, t2) ==
      MarkedRead(readMarks, userId, articleId, t1)
  {
  }

  /** Marking an article read and then unread leaves it unread, whatever it
      was before; no other mark changes. */
  lemma UnreadAfterRead(readMarks: map<(Id, Id), Time>, userId: Id, articleId: Id, now: Time)
    ensures MarkedRead(readMarks, userId, articleId, now) - {(userId, articleId)} == readMarks - {(userId, articleId)}
  {
  }

  /** `mark_article_read`: an `INSERT OR IGNORE`; the foreign keys still
      reject a missing user or article, and then nothing changes. */
  method MarkArticleRead(db: Store, userId: Id, articleId: Id, now: Time) returns (r: Result<(), DbError>)
    requires db.Valid()
    modifies db
    ensures db.Valid()
    ensures r.Failure? <==> userId !in old(db.users) || articleId !in old(db.articles)
    ensures r.Failure? ==> r.error == IntegrityError(ForeignKeyFailed) && db.Snapshot() == old(db.Snapshot())
    ensures r.Success? ==>
      db.Snapshot() == old(db.Snapshot()).(readMarks := MarkedRead(old(db.readMarks), userId, articleId, now))
  {
    if userId !in db.users || articleId !in db.articles {
      return Failure(IntegrityError(ForeignKeyFailed));
    }
    db.readMarks := MarkedRead(db.readMarks, userId, articleId, now);
    r := Success(());
  }

  /** `mark_article_unread`: the user's mark on the article, if any, is
      deleted; nothing else changes. */
  method MarkArticleUnread(db: Store, userId: Id, articleId: Id)
    requires db.Valid()
    modifies db
    ensures db.Valid()
    ensures db.Snapshot() == old(db.Snapshot()).(readMarks := old(db.readMarks) - {(userId, articleId)})
  {
    db.readMarks := db.readMarks - {(userId, articleId)};
  }
}
