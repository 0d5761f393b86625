/** The stateful half of the feed service: refreshing one feed into the
    store, refreshing all of a user's feeds, and deleting old articles. */
module Ingest {
  import opened Wrappers
  import opened Text
  import opened Schema
  import opened Normalizer
  import Crud
  import Config

  /** The article row a record becomes when inserted at `now`; `fetched_at`
      takes its column default, the insertion time. */
  function RecordRow(feedId: Id, rec: Record, now: Time): (row: ArticleRow)
    ensures row.feedId == feedId && row.guid == rec.guid && row.fetchedAt == now
    ensures row.title == rec.title && row.link == rec.link && row.content == rec.content
    ensures row.summary == rec.summary && row.publishedAt == rec.publishedAt
  {
    ArticleRow(feedId, rec.guid, rec.title, rec.link, rec.content, rec.summary, rec.publishedAt, now)
  }

  /** The guids of the articles of `feedId`. */
  function GuidsOf(articles: map<Id, ArticleRow>, feedId: Id): set<string> {
    set a | a in articles && articles[a].feedId == feedId :: articles[a].guid
  }

  /** The guids of the records. */
  function RecordGuids(records: seq<Record>): set<string> {
    set i | 0 <= i < |records| :: records[i].guid
  }

  /** The guids among `records` that `feedId` does not have yet: the rows an
      insert-or-skip pass adds, one per guid. */
  function FreshGuids(articles: map<Id, ArticleRow>, feedId: Id, records: seq<Record>): set<string> {
    RecordGuids(records) - GuidsOf(articles, feedId)
  }

  /** The first record with the guid `g`, if any: the one whose insert
      succeeds when several share a guid. */
  function FirstWithGuid(records: seq<Record>, g: string): (r: Option<Record>)
    ensures r.Some? <==> g in RecordGuids(records)
    ensures r.Some? ==> r.value.guid == g
  {
    if records == [] then None
    else if records[0].guid == g then Some(records[0])
    else
      var r := FirstWithGuid(records[1..], g);
      assert RecordGuids(records) == {records[0].guid} + RecordGuids(records[1..]) by {
        forall x | x in RecordGuids(records) ensures x in {records[0].guid} + RecordGuids(records[1..]) {
          var i :| 0 <= i < |records| && records[i].guid == x;
          if i > 0 {
            assert records[1..][i - 1].guid == x;
          }
        }
      }
      r
  }

  /** One more record adds its guid, and is the first with it exactly when
      no earlier record has it. */
  lemma {:induction false} GuidsSnoc(records: seq<Record>, rec: Record)
    ensures RecordGuids(records + [rec]) == RecordGuids(records) + {rec.guid}
    ensures forall g ::
      FirstWithGuid(records + [rec], g) ==
        (if FirstWithGuid(records, g).Some? then FirstWithGuid(records, g)
         else if g == rec.guid then Some(rec) else None)
  {
    var rs := records + [rec];
    forall x | x in RecordGuids(rs) ensures x in RecordGuids(records) + {rec.guid} {
      var i :| 0 <= i < |rs| && rs[i].guid == x;
      if i < |records| {
        assert records[i].guid == x;
      }
    }
    assert rs[|records|] == rec;
    assert rec.guid in RecordGuids(rs);
    forall x | x in RecordGuids(records) ensures x in RecordGuids(rs) {
      var i :| 0 <= i < |records| && records[i].guid == x;
      assert rs[i].guid == x;
    }
    forall g ensures FirstWithGuid(rs, g) ==
      if FirstWithGuid(records, g).Some? then FirstWithGuid(records, g)
      else if g == rec.guid then Some(rec) else None
    {
      if records != [] {
        assert rs[0] == records[0];
        assert rs[1..] == records[1..] + [rec];
        GuidsSnoc(records[1..], rec);
      }
    }
  }

  /** Every row of `before` is in `after`, unchanged. */
  predicate KeepsOld(before: map<Id, ArticleRow>, after: map<Id, ArticleRow>) {
    forall a | a in before :: a in after && after[a] == before[a]
  }

  /** Keeping old rows twice keeps them across both steps. */
  lemma KeepsOldTrans(a: map<Id, ArticleRow>, b: map<Id, ArticleRow>, c: map<Id, ArticleRow>)
    requires KeepsOld(a, b) && KeepsOld(b, c)
    ensures KeepsOld(a, c)
  {
  }

  /** Every row of `after` that `before` lacks is the row of the first
      record with its guid. */
  predicate NewRowsFrom(before: map<Id, ArticleRow>, after: map<Id, ArticleRow>, feedId: Id, records: seq<Record>, now: Time) {
    forall a | a in after && a !in before ::
      FirstWithGuid(records, after[a].guid).Some? &&
      after[a] == RecordRow(feedId, FirstWithGuid(records, after[a].guid).value, now)
  }

  /** `after` is `before` with the records of `feedId` inserted at `now`,
      skipping each record whose `(feed_id, guid)` is already there: every
      old row is kept as it was, every new row is the first record with its
      guid, and the feed's guids grow by exactly the records' guids. */
  predicate Inserted(before: map<Id, ArticleRow>, after: map<Id, ArticleRow>, feedId: Id, records: seq<Record>, now: Time) {
    KeepsOld(before, after) && NewRowsFrom(before, after, feedId, records, now) &&
    GuidsOf(after, feedId) == GuidsOf(before, feedId) + RecordGuids(records)
  }

  /** After an insert-or-skip pass, every record's guid is present and
      nothing is fresh: a second pass with the same records adds nothing. */
  lemma RefreshAgainAddsNothing(before: map<Id, ArticleRow>, after: map<Id, ArticleRow>, feedId: Id, records: seq<Record>, now: Time)
    requires Inserted(before, after, feedId, records, now)
    ensures forall i | 0 <= i < |records| :: records[i].guid in GuidsOf(after, feedId)
    ensures FreshGuids(after, feedId, records) == {}
  {
  }

  /** A row of `feedId` added under a new id adds its guid to the feed's. */
  lemma GuidsOfInsert(arts: map<Id, ArticleRow>, feedId: Id, id: Id, row: ArticleRow)
    requires id !in arts && row.feedId == feedId
    ensures GuidsOf(arts[id := row], feedId) == GuidsOf(arts, feedId) + {row.guid}
  {
    var after := arts[id := row];
    forall x | x in GuidsOf(after, feedId) ensures x in GuidsOf(arts, feedId) + {row.guid} {
      var a :| a in after && after[a].feedId == feedId && after[a].guid == x;
      if a != id {
        assert arts[a] == after[a];
      }
    }
    forall x | x in GuidsOf(arts, feedId) ensures x in GuidsOf(after, feedId) {
      var a :| a in arts && arts[a].feedId == feedId && arts[a].guid == x;
      assert after[a] == arts[a];
    }
    assert after[id] == row;
  }

  /** Skipping record `i`, whose guid the feed already has, keeps the pass
      described by `Inserted`. */
  lemma InsertedSkip(before: map<Id, ArticleRow>, after: map<Id, ArticleRow>, feedId: Id, records: seq<Record>, i: nat, now: Time)
    requires i < |records| && Inserted(before, after, feedId, records[..i], now)
    requires records[i].guid in GuidsOf(after, feedId)
    ensures Inserted(before, after, feedId, records[..i + 1], now)
  {
    var rec := records[i];
    assert records[..i + 1] == records[..i] + [rec];
    GuidsSnoc(records[..i], rec);
    forall a | a in after && a !in before
      ensures FirstWithGuid(records[..i] + [rec], after[a].guid) == FirstWithGuid(records[..i], after[a].guid)
    {
    }
  }

  /** Inserting record `i`, whose guid the feed lacks, under a new id keeps
      the pass described by `Inserted` and adds its guid to the feed's. */
  lemma InsertedAdd(before: map<Id, ArticleRow>, after: map<Id, ArticleRow>, feedId: Id, records: seq<Record>, i: nat, id: Id, now: Time)
    requires i < |records| && Inserted(before, after, feedId, records[..i], now)
    requires records[i].guid !in GuidsOf(after, feedId) && id !in after
    ensures Inserted(before, after[id := RecordRow(feedId, records[i], now)], feedId, records[..i + 1], now)
    ensures GuidsOf(after[id := RecordRow(feedId, records[i], now)], feedId) == GuidsOf(after, feedId) + {records[i].guid}
  {
    var rec := records[i];
    var rs := records[..i];
    assert records[..i + 1] == rs + [rec];
    var row := RecordRow(feedId, rec, now);
    GuidsSnoc(rs, rec);
    GuidsOfInsert(after, feedId, id, row);
    NewRowsAdd(before, after, feedId, rs, rec, id, now);
  }

  /** A new row for a record no earlier record shares a guid with keeps
      every new row the first record with its guid. */
  lemma NewRowsAdd(before: map<Id, ArticleRow>, after: map<Id, ArticleRow>, feedId: Id, rs: seq<Record>, rec: Record, id: Id, now: Time)
    requires NewRowsFrom(before, after, feedId, rs, now)
    requires rec.guid !in RecordGuids(rs) && id !in after
    ensures NewRowsFrom(before, after[id := RecordRow(feedId, rec, now)], feedId, rs + [rec], now)
  {
    var next := after[id := RecordRow(feedId, rec, now)];
    GuidsSnoc(rs, rec);
    forall a | a in next && a !in before
      ensures FirstWithGuid(rs + [rec], next[a].guid).Some? &&
        next[a] == RecordRow(feedId, FirstWithGuid(rs + [rec], next[a].guid).value, now)
    {
      if a != id {
        assert next[a] == after[a];
        assert FirstWithGuid(rs + [rec], after[a].guid) == FirstWithGuid(rs, after[a].guid);
      }
    }
  }

  /** A row whose `(feed_id, guid)` is new, added under a new id to an
      existing feed, keeps the articles consistent. */
  lemma AddKeepsConsistent(feeds: map<Id, FeedRow>, articles: map<Id, ArticleRow>, id: Id, row: ArticleRow)
    requires ArticlesConsistent(feeds, articles) && row.feedId in feeds && id !in articles
    requires row.guid !in GuidsOf(articles, row.feedId)
    ensures ArticlesConsistent(feeds, articles[id := row])
  {
    forall a | a in articles && articles[a].feedId == row.feedId ensures articles[a].guid != row.guid {
      assert articles[a].guid in GuidsOf(articles, row.feedId);
    }
  }

  /** The fresh guids are exactly what the pass adds to the feed's guids. */
  lemma FreshCount(before: map<Id, ArticleRow>, after: map<Id, ArticleRow>, feedId: Id, records: seq<Record>, now: Time)
    requires Inserted(before, after, feedId, records, now)
    ensures |FreshGuids(before, feedId, records)| == |GuidsOf(after, feedId)| - |GuidsOf(before, feedId)|
  {
    var had, gained := GuidsOf(before, feedId), FreshGuids(before, feedId, records);
    assert GuidsOf(after, feedId) == had + gained;
    assert had * gained == {};
  }

  /** The state of the insert loop after the records before `i`: the pass
      over those records is done, the table is consistent, and `count` rows
      were added. */
  ghost predicate InsertLoop(articles: map<Id, ArticleRow>, feeds: map<Id, FeedRow>, feedId: Id, records: seq<Record>, now: Time,
                             i: nat, after: map<Id, ArticleRow>, count: nat)
  {
    i <= |records| && feedId in feeds &&
    Inserted(articles, after, feedId, records[..i], now) &&
    ArticlesConsistent(feeds, after) &&
    count == |GuidsOf(after, feedId)| - |GuidsOf(articles, feedId)| &&
    |after| == |articles| + count
  }

  /** One iteration of the insert loop: insert record `i` under a new id,
      or skip it when the feed has its guid. */
  method InsertNext(articles: map<Id, ArticleRow>, feeds: map<Id, FeedRow>, feedId: Id, records: seq<Record>, now: Time,
                    i: nat, after: map<Id, ArticleRow>, count: nat)
      returns (next: map<Id, ArticleRow>, count': nat)
    requires i < |records| && InsertLoop(articles, feeds, feedId, records, now, i, after, count)
    ensures InsertLoop(articles, feeds, feedId, records, now, i + 1, next, count')
  {
    var rec := records[i];
    if exists a | a in after :: after[a].feedId == feedId && after[a].guid == rec.guid {
      InsertedSkip(articles, after, feedId, records, i, now);
      next, count' := after, count;
    } else {
      var id := NextRowId(after.Keys);
      assert rec.guid !in GuidsOf(after, feedId);
      InsertedAdd(articles, after, feedId, records, i, id, now);
      AddKeepsConsistent(feeds, after, id, RecordRow(feedId, rec, now));
      next, count' := after[id := RecordRow(feedId, rec, now)], count + 1;
    }
  }

  /** The insert loop of `refresh_feed` over the article rows: each record
      is inserted under a new id unless its `(feed_id, guid)` is already
      present; the count is of inserted rows. */
  method InsertAll(articles: map<Id, ArticleRow>, feeds: map<Id, FeedRow>, feedId: Id, records: seq<Record>, now: Time)
      returns (after: map<Id, ArticleRow>, count: nat)
    requires feedId in feeds && ArticlesConsistent(feeds, articles)
    ensures ArticlesConsistent(feeds, after)
    ensures Inserted(articles, after, feedId, records, now)
    ensures count == |FreshGuids(articles, feedId, records)|
    ensures |after| == |articles| + count
  {
    after := articles;
    count := 0;
    var i := 0;
    assert records[..i] == [];
    assert RecordGuids([]) == {};
    while i < |records|
      invariant InsertLoop(articles, feeds, feedId, records, now, i, after, count)
    {
      after, count := InsertNext(articles, feeds, feedId, records, now, i, after, count);
      i := i + 1;
    }
    assert records[..i] == records;
    FreshCount(articles, after, feedId, records, now);
  }

  /** The insert loop of `refresh_feed` on the store: only the articles
      change. */
  method InsertRecords(db: Store, feedId: Id, records: seq<Record>, now: Time) returns (count: nat)
    requires db.Valid() && feedId in db.feeds
    modifies db
    ensures db.Valid()
    ensures db.Snapshot() == old(db.Snapshot()).(articles := db.articles)
    ensures Inserted(old(db.articles), db.articles, feedId, records, now)
    ensures count == |FreshGuids(old(db.articles), feedId, records)|
    ensures |db.articles| == |old(db.articles)| + count
  {
    var after;
    after, count := InsertAll(db.articles, db.feeds, feedId, records, now);
    db.articles := after;
  }

  /** The feed title after a successful fetch: the fetched title when it is
      non-empty, otherwise the stored one. */
  function RefreshedTitle(current: Option<string>, fetched: string): (r: Option<string>)
    ensures r != current ==> fetched != [] && r == Some(fetched)
    ensures fetched != [] ==> r == Some(fetched)
    ensures fetched == [] ==> r == current
  {
    if fetched != [] && Some(fetched) != current then Some(fetched) else current
  }

  /** Why a refresh failed: the feed does not exist, or fetching or parsing
      it failed. */
  datatype RefreshError = FeedNotFound(message: string) | FetchFailed(error: FeedError)

  /** The text of a refresh error (`str(e)`). */
  function ErrorText(e: RefreshError): string {
    match e
    case FeedNotFound(m) => m
    case FetchFailed(f) => f.message
  }

  /** What fetching and parsing the feed at `url` gives; `web(url)` is what
      the network answers for it. */
  function FetchFor(url: string, web: string -> FetchOutcome, p: Platform): Result<FetchedFeed, FeedError> {
    FetchAndParse(url, web(url), p)
  }

  /** A feed's row after a refresh attempt: fetched at `now`, and with the
      refreshed title when the fetch worked. */
  function RefreshedRow(row: FeedRow, fetched: Result<FetchedFeed, FeedError>, now: Time): (r: FeedRow)
    ensures r.userId == row.userId && r.url == row.url && r.lastFetched == Some(now)
    ensures fetched.Failure? ==> r.title == row.title
    ensures fetched.Success? ==> r.title == RefreshedTitle(row.title, fetched.value.title)
  {
    if fetched.Success? then row.(title := RefreshedTitle(row.title, fetched.value.title), lastFetched := Some(now))
    else row.(lastFetched := Some(now))
  }

  /** The guids a refresh attempt brings: every fetched record's, none when
      the fetch failed. */
  function FetchedGuids(fetched: Result<FetchedFeed, FeedError>): set<string> {
    if fetched.Success? then RecordGuids(fetched.value.records) else {}
  }

  /** Changing a feed row in anything but its user and URL keeps the
      tables consistent. */
  lemma RowUpdateConsistent(t: Tables, feedId: Id, row: FeedRow)
    requires Consistent(t) && feedId in t.feeds
    requires row.userId == t.feeds[feedId].userId && row.url == t.feeds[feedId].url
    ensures Consistent(t.(feeds := t.feeds[feedId := row]))
  {
  }

  /** `UPDATE feeds SET ... WHERE id = feedId` for columns other than the
      user and the URL. */
  method UpdateFeedRow(db: Store, feedId: Id, row: FeedRow)
    requires db.Valid() && feedId in db.feeds
    requires row.userId == db.feeds[feedId].userId && row.url == db.feeds[feedId].url
    modifies db
    ensures db.Valid()
    ensures db.Snapshot() == old(db.Snapshot()).(feeds := old(db.feeds)[feedId := row])
  {
    RowUpdateConsistent(db.Snapshot(), feedId, row);
    db.feeds := db.feeds[feedId := row];
  }

  /** The success path of `refresh_feed`: the title rule, the insert loop,
      and `last_fetched`. */
  method ApplyFetched(db: Store, feedId: Id, fetched: FetchedFeed, now: Time) returns (count: nat)
    requires db.Valid() && feedId in db.feeds
    modifies db
    ensures db.Valid()
    ensures db.Snapshot() == old(db.Snapshot()).(
      feeds := old(db.feeds)[feedId := old(db.feeds)[feedId].(
        title := RefreshedTitle(old(db.feeds)[feedId].title, fetched.title), lastFetched := Some(now))],
      articles := db.articles)
    ensures Inserted(old(db.articles), db.articles, feedId, fetched.records, now)
    ensures count == |FreshGuids(old(db.articles), feedId, fetched.records)|
    ensures |db.articles| == |old(db.articles)| + count
  {
    var row := db.feeds[feedId];
    var title := fetched.title;
    if title != [] && Some(title) != row.title {
      UpdateFeedRow(db, feedId, row.(title := Some(title)));
    }
    ghost var renamed := old(db.feeds)[feedId := row.(title := RefreshedTitle(row.title, title))];
    assert db.feeds == renamed;
    count := InsertRecords(db, feedId, fetched.records, now);
    ghost var inserted := db.articles;
    var done := db.feeds[feedId].(lastFetched := Some(now));
    UpdateFeedRow(db, feedId, done);
    assert db.articles == inserted;
    UpdateTwice(old(db.feeds), feedId, renamed[feedId], done);
  }

  /** Updating a key twice keeps the second value only. */
  lemma UpdateTwice<K, V>(m: map<K, V>, k: K, v: V, w: V)
    ensures m[k := v][k := w] == m[k := w]
  {
  }

  /** `refresh_feed`: an unknown feed fails with nothing changed; a failed
      fetch or parse records the attempt in `last_fetched` only; otherwise
      `ApplyFetched` does the rest and its count is returned. */
  method RefreshFeed(db: Store, feedId: Id, web: string -> FetchOutcome, p: Platform, now: Time)
      returns (r: Result<nat, RefreshError>)
    requires db.Valid()
    modifies db
    ensures db.Valid()
    ensures feedId !in old(db.feeds) ==>
      r == Failure(FeedNotFound("Feed " + IntToDecimal(feedId) + " not found")) && db.Snapshot() == old(db.Snapshot())
    ensures feedId in old(db.feeds) && FetchFor(old(db.feeds)[feedId].url, web, p).Failure? ==>
      r == Failure(FetchFailed(FetchFor(old(db.feeds)[feedId].url, web, p).error)) &&
      db.Snapshot() == old(db.Snapshot()).(feeds := old(db.feeds)[feedId := old(db.feeds)[feedId].(lastFetched := Some(now))])
    ensures feedId in old(db.feeds) && FetchFor(old(db.feeds)[feedId].url, web, p).Success? ==>
      var row := old(db.feeds)[feedId];
      var fetched := FetchFor(row.url, web, p).value;
      r.Success? &&
      db.Snapshot() == old(db.Snapshot()).(
        feeds := old(db.feeds)[feedId := row.(title := RefreshedTitle(row.title, fetched.title), lastFetched := Some(now))],
        articles := db.articles) &&
      Inserted(old(db.articles), db.articles, feedId, fetched.records, now) &&
      r.value == |FreshGuids(old(db.articles), feedId, fetched.records)| &&
      |db.articles| == |old(db.articles)| + r.value
  {
    if feedId !in db.feeds {
      return Failure(FeedNotFound("Feed " + IntToDecimal(feedId) + " not found"));
    }
    var row := db.feeds[feedId];
    var fetched := FetchAndParse(row.url, web(row.url), p);
    if fetched.Failure? {
      var touched := row.(lastFetched := Some(now));
      RowUpdateConsistent(db.Snapshot(), feedId, touched);
      db.feeds := db.feeds[feedId := touched];
      return Failure(FetchFailed(fetched.error));
    }
    var count := ApplyFetched(db, feedId, fetched.value, now);
    r := Success(count);
  }

  /** What `refresh_all_feeds` reports for one feed: its new-article count,
      or the text of its error. */
  datatype FeedOutcome = NewArticles(count: nat) | Failed(message: string)

  /** The new articles the outcome counts; an error counts none. */
  function NewCount(o: FeedOutcome): nat {
    if o.NewArticles? then o.count else 0
  }

  /** `sum(v for v in results.values() if isinstance(v, int))`. */
  function TotalNew(results: seq<(Id, FeedOutcome)>): (n: nat)
    ensures results == [] ==> n == 0
  {
    if results == [] then 0 else TotalNew(results[..|results| - 1]) + NewCount(results[|results| - 1].1)
  }

  /** The total over a longer list adds the new entry's count. */
  lemma TotalNewSnoc(results: seq<(Id, FeedOutcome)>, x: (Id, FeedOutcome))
    ensures TotalNew(results + [x]) == TotalNew(results) + NewCount(x.1)
  {
    assert (results + [x])[..|results|] == results;
  }

  /** Errors add nothing to the total; the total is at least each count. */
  lemma {:induction false} TotalNewBounds(results: seq<(Id, FeedOutcome)>)
    ensures (forall i | 0 <= i < |results| :: results[i].1.Failed?) ==> TotalNew(results) == 0
    ensures forall i | 0 <= i < |results| :: NewCount(results[i].1) <= TotalNew(results)
  {
    if results != [] {
      var init := results[..|results| - 1];
      TotalNewBounds(init);
      assert forall i | 0 <= i < |init| :: init[i] == results[i];
    }
  }

  /** The ids of the user's feeds. */
  function FeedsOf(feeds: map<Id, FeedRow>, userId: Id): set<Id> {
    set f | f in feeds && feeds[f].userId == userId
  }

  /** The entry `e` reports what refreshing its feed of `feeds`, whose
      articles are among `articles`, gave: the error's text when the fetch or
      parse fails, otherwise the number of its fresh guids. */
  predicate Reports(feeds: map<Id, FeedRow>, articles: map<Id, ArticleRow>, web: string -> FetchOutcome, p: Platform,
                    e: (Id, FeedOutcome)) {
    e.0 in feeds &&
    var fetched := FetchFor(feeds[e.0].url, web, p);
    (fetched.Failure? ==> e.1 == Failed(fetched.error.message)) &&
    (fetched.Success? ==> e.1 == NewArticles(|FreshGuids(articles, e.0, fetched.value.records)|))
  }

  /** No feed id is reported twice. */
  predicate DistinctIds(results: seq<(Id, FeedOutcome)>) {
    forall i, j | 0 <= i < j < |results| :: results[i].0 != results[j].0
  }

  /** The feeds `ids - rest` have been reported, each once and truly. */
  ghost predicate Progress(feeds: map<Id, FeedRow>, articles: map<Id, ArticleRow>, ids: set<Id>, rest: set<Id>,
                           web: string -> FetchOutcome, p: Platform, results: seq<(Id, FeedOutcome)>)
  {
    rest <= ids &&
    DistinctIds(results) &&
    (forall f :: f in ids && f !in rest <==> exists i | 0 <= i < |results| :: results[i].0 == f) &&
    (forall i | 0 <= i < |results| :: Reports(feeds, articles, web, p, results[i]))
  }

  /** Reporting one more feed of `rest` truly keeps the progress. */
  lemma ProgressStep(feeds: map<Id, FeedRow>, articles: map<Id, ArticleRow>, ids: set<Id>, rest: set<Id>,
                     web: string -> FetchOutcome, p: Platform, results: seq<(Id, FeedOutcome)>, e: (Id, FeedOutcome))
    requires Progress(feeds, articles, ids, rest, web, p, results)
    requires e.0 in rest && Reports(feeds, articles, web, p, e)
    ensures Progress(feeds, articles, ids, rest - {e.0}, web, p, results + [e])
  {
    var results' := results + [e];
    ReportedSnoc(ids, rest, results, e);
    DistinctSnoc(ids, rest, results, e);
    forall i | 0 <= i < |results'| ensures Reports(feeds, articles, web, p, results'[i]) {
      if i < |results| {
        assert results'[i] == results[i];
      }
    }
  }

  /** The feeds reported are `ids - rest`; reporting one of `rest` moves it
      out of `rest`. */
  lemma ReportedSnoc(ids: set<Id>, rest: set<Id>, results: seq<(Id, FeedOutcome)>, e: (Id, FeedOutcome))
    requires rest <= ids
    requires forall f :: f in ids && f !in rest <==> exists i | 0 <= i < |results| :: results[i].0 == f
    requires e.0 in rest
    ensures forall f :: f in ids && f !in rest - {e.0} <==> exists i | 0 <= i < |results + [e]| :: (results + [e])[i].0 == f
  {
    var results' := results + [e];
    forall f
      ensures f in ids && f !in rest - {e.0} <==> exists i | 0 <= i < |results'| :: results'[i].0 == f
    {
      if f == e.0 {
        assert results'[|results|].0 == f;
      } else if exists i | 0 <= i < |results'| :: results'[i].0 == f {
        var i :| 0 <= i < |results'| && results'[i].0 == f;
        assert results[i].0 == f;
      } else {
        forall i | 0 <= i < |results| ensures results[i].0 != f {
          assert results'[i] == results[i];
        }
      }
    }
  }

  /** A feed not reported yet keeps the reports distinct. */
  lemma DistinctSnoc(ids: set<Id>, rest: set<Id>, results: seq<(Id, FeedOutcome)>, e: (Id, FeedOutcome))
    requires DistinctIds(results)
    requires forall f :: f in ids && f !in rest <==> exists i | 0 <= i < |results| :: results[i].0 == f
    requires e.0 in rest
    ensures DistinctIds(results + [e])
  {
    var results' := results + [e];
    forall i, j | 0 <= i < j < |results'| ensures results'[i].0 != results'[j].0 {
      assert results'[i] == results[i];
      if j == |results| {
        assert results[i].0 in ids && results[i].0 !in rest;
      } else {
        assert results'[j] == results[j];
      }
    }
  }

  /** Feed `f` of `feeds0` has had its refresh: its row is `RefreshedRow` of
      its fetch, and its guids are the old ones with the fetched ones added. */
  ghost predicate FeedRefreshed(feeds0: map<Id, FeedRow>, articles0: map<Id, ArticleRow>,
                                feeds: map<Id, FeedRow>, articles: map<Id, ArticleRow>, f: Id,
                                web: string -> FetchOutcome, p: Platform, now: Time)
  {
    f in feeds0 && f in feeds &&
    var fetched := FetchFor(feeds0[f].url, web, p);
    feeds[f] == RefreshedRow(feeds0[f], fetched, now) &&
    GuidsOf(articles, f) == GuidsOf(articles0, f) + FetchedGuids(fetched)
  }

  /** Feed `f` has its row and its guids as they were. */
  ghost predicate FeedUntouched(feeds0: map<Id, FeedRow>, articles0: map<Id, ArticleRow>,
                                feeds: map<Id, FeedRow>, articles: map<Id, ArticleRow>, f: Id)
  {
    f in feeds0 && f in feeds && feeds[f] == feeds0[f] && GuidsOf(articles, f) == GuidsOf(articles0, f)
  }

  /** Exactly the feeds `done` have had their refresh; every other feed is
      as it was. */
  ghost predicate RefreshedFeeds(feeds0: map<Id, FeedRow>, articles0: map<Id, ArticleRow>,
                                 feeds: map<Id, FeedRow>, articles: map<Id, ArticleRow>, done: set<Id>,
                                 web: string -> FetchOutcome, p: Platform, now: Time)
  {
    forall f | f in feeds0 ::
      (f in done ==> FeedRefreshed(feeds0, articles0, feeds, articles, f, web, p, now)) &&
      (f !in done ==> FeedUntouched(feeds0, articles0, feeds, articles, f))
  }

  /** Refreshing one more untouched feed `f` of `rest`, leaving the others
      alone, moves it from the feeds still to do to the refreshed ones. */
  lemma RefreshedFeedsStep(feeds0: map<Id, FeedRow>, articles0: map<Id, ArticleRow>,
                           feeds: map<Id, FeedRow>, articles: map<Id, ArticleRow>,
                           feeds': map<Id, FeedRow>, articles': map<Id, ArticleRow>, ids: set<Id>, rest: set<Id>, f: Id,
                           web: string -> FetchOutcome, p: Platform, now: Time)
    requires RefreshedFeeds(feeds0, articles0, feeds, articles, ids - rest, web, p, now)
    requires rest <= ids && f in rest && f in feeds0 && f in feeds
    requires feeds' == feeds[f := RefreshedRow(feeds[f], FetchFor(feeds[f].url, web, p), now)]
    requires GuidsOf(articles', f) == GuidsOf(articles, f) + FetchedGuids(FetchFor(feeds[f].url, web, p))
    requires forall g | g != f :: GuidsOf(articles', g) == GuidsOf(articles, g)
    ensures RefreshedFeeds(feeds0, articles0, feeds', articles', ids - (rest - {f}), web, p, now)
  {
    var done := ids - rest;
    assert done + {f} == ids - (rest - {f});
    assert FeedUntouched(feeds0, articles0, feeds, articles, f);
    forall g | g in feeds0
      ensures (g in done + {f} ==> FeedRefreshed(feeds0, articles0, feeds', articles', g, web, p, now)) &&
              (g !in done + {f} ==> FeedUntouched(feeds0, articles0, feeds', articles', g))
    {
      if g != f {
        assert feeds'[g] == feeds[g];
        assert GuidsOf(articles', g) == GuidsOf(articles, g);
      }
    }
  }

  /** A report made against an untouched feed is a report against the
      original tables. */
  lemma ReportsUntouched(feeds0: map<Id, FeedRow>, articles0: map<Id, ArticleRow>,
                         feeds: map<Id, FeedRow>, articles: map<Id, ArticleRow>,
                         web: string -> FetchOutcome, p: Platform, e: (Id, FeedOutcome))
    requires FeedUntouched(feeds0, articles0, feeds, articles, e.0)
    requires Reports(feeds, articles, web, p, e)
    ensures Reports(feeds0, articles0, web, p, e)
  {
  }

  /** What `refresh_all_feeds` leaves for `userId`: users, labels and read
      marks as they were, the same feeds, every old article row kept, each
      feed of the user refreshed and every other feed untouched. */
  ghost predicate AllRefreshed(t0: Tables, t: Tables, userId: Id, web: string -> FetchOutcome, p: Platform, now: Time) {
    t.users == t0.users && t.labels == t0.labels && t.readMarks == t0.readMarks &&
    t.feeds.Keys == t0.feeds.Keys && KeepsOld(t0.articles, t.articles) &&
    RefreshedFeeds(t0.feeds, t0.articles, t.feeds, t.articles, FeedsOf(t0.feeds, userId), web, p, now)
  }

  /** What the loop of `refresh_all_feeds` leaves as it was since `t0`:
      users, labels and read marks, the feed ids and urls, and every article
      row; the store stays consistent. */
  ghost predicate Untouched(db: Store, t0: Tables)
    reads db
  {
    db.Valid() &&
    db.users == t0.users && db.labels == t0.labels && db.readMarks == t0.readMarks &&
    db.feeds.Keys == t0.feeds.Keys &&
    (forall f | f in t0.feeds :: db.feeds[f].url == t0.feeds[f].url) &&
    KeepsOld(t0.articles, db.articles)
  }

  /** The state of `refresh_all_feeds` after reporting `results`. */
  ghost predicate RefreshLoop(db: Store, t0: Tables, ids: set<Id>, rest: set<Id>,
                              web: string -> FetchOutcome, p: Platform, now: Time, results: seq<(Id, FeedOutcome)>)
    reads db
  {
    ids <= t0.feeds.Keys && rest <= ids &&
    Untouched(db, t0) &&
    RefreshedFeeds(t0.feeds, t0.articles, db.feeds, db.articles, ids - rest, web, p, now) &&
    Progress(t0.feeds, t0.articles, ids, rest, web, p, results) &&
    |db.articles| == |t0.articles| + TotalNew(results)
  }

  /** `refresh_all_feeds`: one entry per feed of the user, each feed once;
      a feed whose fetch or parse fails reports the error's text, the others
      their new-article count; no error escapes. Old articles are kept and
      the articles grow by the total reported. */
  method RefreshAllFeeds(db: Store, userId: Id, web: string -> FetchOutcome, p: Platform, now: Time)
      returns (results: seq<(Id, FeedOutcome)>)
    requires db.Valid()
    modifies db
    ensures db.Valid()
    ensures db.users == old(db.users) && db.labels == old(db.labels) && db.readMarks == old(db.readMarks)
    ensures db.feeds.Keys == old(db.feeds).Keys
    ensures DistinctIds(results)
    ensures forall f :: f in FeedsOf(old(db.feeds), userId) <==> exists i | 0 <= i < |results| :: results[i].0 == f
    ensures forall i | 0 <= i < |results| :: Reports(old(db.feeds), old(db.articles), web, p, results[i])
    ensures KeepsOld(old(db.articles), db.articles)
    ensures |db.articles| == |old(db.articles)| + TotalNew(results)
    ensures AllRefreshed(old(db.Snapshot()), db.Snapshot(), userId, web, p, now)
  {
    ghost var t0 := db.Snapshot();
    var ids := FeedsOf(db.feeds, userId);
    var rest := ids;
    results := [];
    while rest != {}
      invariant RefreshLoop(db, t0, ids, rest, web, p, now, results)
      decreases rest
    {
      rest, results := RefreshNext(db, t0, ids, rest, web, p, now, results);
    }
    ProgressDone(t0.feeds, t0.articles, ids, web, p, results);
    assert ids - rest == ids;
  }

  /** Once no feed is left, exactly the feeds of `ids` have been reported. */
  lemma ProgressDone(feeds: map<Id, FeedRow>, articles: map<Id, ArticleRow>, ids: set<Id>, web: string -> FetchOutcome,
                     p: Platform, results: seq<(Id, FeedOutcome)>)
    requires Progress(feeds, articles, ids, {}, web, p, results)
    ensures forall f :: f in ids <==> exists i | 0 <= i < |results| :: results[i].0 == f
  {
  }

  /** One turn of the loop of `refresh_all_feeds`: some feed not yet done is
      refreshed and its outcome appended. */
  method RefreshNext(db: Store, ghost t0: Tables, ghost ids: set<Id>, rest: set<Id>,
                     web: string -> FetchOutcome, p: Platform, now: Time, results: seq<(Id, FeedOutcome)>)
      returns (rest': set<Id>, results': seq<(Id, FeedOutcome)>)
    requires rest != {} && RefreshLoop(db, t0, ids, rest, web, p, now, results)
    modifies db
    ensures RefreshLoop(db, t0, ids, rest', web, p, now, results')
    ensures rest' < rest
  {
    var f :| f in rest;
    ghost var before := db.articles;
    ghost var feeds := db.feeds;
    assert FeedUntouched(t0.feeds, t0.articles, feeds, before, f);
    var r := RefreshOne(db, f, web, p, now);
    ReportsUntouched(t0.feeds, t0.articles, feeds, before, web, p, (f, r));
    RefreshedFeedsStep(t0.feeds, t0.articles, feeds, before, db.feeds, db.articles, ids, rest, f, web, p, now);
    TotalNewSnoc(results, (f, r));
    ProgressStep(t0.feeds, t0.articles, ids, rest, web, p, results, (f, r));
    results' := results + [(f, r)];
    rest' := rest - {f};
    KeepsOldTrans(t0.articles, before, db.articles);
    assert Untouched(db, t0);
  }

  /** One iteration of `refresh_all_feeds`: refresh, and turn an error into
      its text. */
  method RefreshOne(db: Store, feedId: Id, web: string -> FetchOutcome, p: Platform, now: Time) returns (o: FeedOutcome)
    requires db.Valid() && feedId in db.feeds
    modifies db
    ensures db.Valid()
    ensures db.users == old(db.users) && db.labels == old(db.labels) && db.readMarks == old(db.readMarks)
    ensures db.feeds.Keys == old(db.feeds).Keys
    ensures forall f | f in old(db.feeds) :: db.feeds[f].url == old(db.feeds)[f].url
    ensures Reports(old(db.feeds), old(db.articles), web, p, (feedId, o))
    ensures KeepsOld(old(db.articles), db.articles)
    ensures forall g | g != feedId :: GuidsOf(db.articles, g) == GuidsOf(old(db.articles), g)
    ensures |db.articles| == |old(db.articles)| + NewCount(o)
    ensures db.feeds == old(db.feeds)[feedId := RefreshedRow(old(db.feeds)[feedId], FetchFor(old(db.feeds)[feedId].url, web, p), now)]
    ensures GuidsOf(db.articles, feedId) == GuidsOf(old(db.articles), feedId) + FetchedGuids(FetchFor(old(db.feeds)[feedId].url, web, p))
  {
    ghost var before := db.articles;
    var r := RefreshFeed(db, feedId, web, p, now);
    if r.Success? {
      InsertedOthers(before, db.articles, feedId, FetchFor(old(db.feeds)[feedId].url, web, p).value.records, now);
      o := NewArticles(r.value);
    } else {
      o := Failed(ErrorText(r.error));
    }
  }

  /** An insert-or-skip pass for one feed leaves every other feed's guids
      as they were. */
  lemma InsertedOthers(before: map<Id, ArticleRow>, after: map<Id, ArticleRow>, feedId: Id, records: seq<Record>, now: Time)
    requires Inserted(before, after, feedId, records, now)
    ensures forall g | g != feedId :: GuidsOf(after, g) == GuidsOf(before, g)
  {
    forall g | g != feedId ensures GuidsOf(after, g) == GuidsOf(before, g) {
      forall x | x in GuidsOf(after, g) ensures x in GuidsOf(before, g) {
        var a :| a in after && after[a].feedId == g && after[a].guid == x;
        assert a in before;
      }
      forall x | x in GuidsOf(before, g) ensures x in GuidsOf(after, g) {
        var a :| a in before && before[a].feedId == g && before[a].guid == x;
        assert after[a] == before[a];
      }
    }
  }

  /** Articles fetched before this many seconds ago are deleted. */
  const RetentionSeconds: int := Config.ArticleRetentionDays * Config.SecondsPerDay

  /** The articles `cleanup_old_articles` deletes at `now`. */
  function Expired(articles: map<Id, ArticleRow>, now: Time): (gone: set<Id>)
    ensures forall a :: a in gone <==> a in articles && articles[a].fetchedAt < now - RetentionSeconds
  {
    set a | a in articles && articles[a].fetchedAt < now - RetentionSeconds
  }

  /** `cleanup_old_articles`: deletes exactly the articles fetched before
      the retention cutoff, with their read marks, keeps every other row as
      it was, and returns how many articles it deleted. */
  method CleanupOldArticles(db: Store, now: Time) returns (deleted: nat)
    requires db.Valid()
    modifies db
    ensures db.Valid()
    ensures db.Snapshot() == Crud.DropArticles(old(db.Snapshot()), Expired(old(db.articles), now))
    ensures forall a :: a in db.articles <==> a in old(db.articles) && old(db.articles)[a].fetchedAt >= now - RetentionSeconds
    ensures deleted == |Expired(old(db.articles), now)| == |old(db.articles)| - |db.articles|
  {
    var gone := Expired(db.articles, now);
    ghost var before := db.articles;
    db.readMarks := Crud.RemoveReadMarks(db.readMarks, gone);
    db.articles := Crud.RemoveArticles(db.articles, gone);
    assert db.articles.Keys == before.Keys - gone;
    deleted := |gone|;
  }
}
