/** The logic of the HTML pages: the relative-time filter, the user-key
    form check, and the form handlers that change the store, each with its
    login and ownership guards and the redirect it answers with. */
module Pages {
  import opened Wrappers
  import opened Text
  import opened Schema
  import opened Normalizer
  import Crud
  import Ingest
  import Models
  import Config

  // ============== Relative time ==============

  /** How long ago something happened, in the buckets the filter shows. */
  datatype Age =
    | JustNow
    | MinutesAgo(n: nat)
    | HoursAgo(n: nat)
    | DaysAgo(n: nat)
    | Older

  const SecondsPerMinute: nat := 60
  const SecondsPerHour: nat := 3600
  const SecondsPerWeek: nat := 7 * Config.SecondsPerDay

  /** The bucket of an age of `seconds`: under a minute is "just now"
      (including times in the future), then whole minutes, hours and days,
      and a week or more is shown as a date. Each count is the number of
      whole units elapsed, so it is never 0 and never reaches the next unit. */
  function Classify(seconds: int): (a: Age)
    ensures a.JustNow? <==> seconds < SecondsPerMinute
    ensures a.MinutesAgo? <==> SecondsPerMinute <= seconds < SecondsPerHour
    ensures a.HoursAgo? <==> SecondsPerHour <= seconds < Config.SecondsPerDay
    ensures a.DaysAgo? <==> Config.SecondsPerDay <= seconds < SecondsPerWeek
    ensures a.Older? <==> seconds >= SecondsPerWeek
    ensures a.MinutesAgo? ==> 1 <= a.n < 60 && a.n * SecondsPerMinute <= seconds < (a.n + 1) * SecondsPerMinute
    ensures a.HoursAgo? ==> 1 <= a.n < 24 && a.n * SecondsPerHour <= seconds < (a.n + 1) * SecondsPerHour
    ensures a.DaysAgo? ==> 1 <= a.n < 7 && a.n * Config.SecondsPerDay <= seconds < (a.n + 1) * Config.SecondsPerDay
  {
    if seconds < SecondsPerMinute then JustNow
    else if seconds < SecondsPerHour then MinutesAgo(seconds / SecondsPerMinute)
    else if seconds < Config.SecondsPerDay then HoursAgo(seconds / SecondsPerHour)
    else if seconds < SecondsPerWeek then DaysAgo(seconds / Config.SecondsPerDay)
    else Older
  }

  /** The order of the buckets, youngest first. */
  function Rank(a: Age): nat {
    match a
    case JustNow => 0
    case MinutesAgo(_) => 1
    case HoursAgo(_) => 2
    case DaysAgo(_) => 3
    case Older => 4
  }

  /** Something older never looks newer: a later bucket, or the same bucket
      with a count at least as large. */
  lemma ClassifyMonotone(s: int, t: int)
    requires s <= t
    ensures Rank(Classify(s)) <= Rank(Classify(t))
    ensures Rank(Classify(s)) == Rank(Classify(t)) && !Classify(s).JustNow? && !Classify(s).Older? ==>
      Classify(s).n <= Classify(t).n
  {
    var a, b := Classify(s), Classify(t);
    if Rank(a) == Rank(b) && a.MinutesAgo? {
      assert a.n * SecondsPerMinute <= t < (b.n + 1) * SecondsPerMinute;
    } else if Rank(a) == Rank(b) && a.HoursAgo? {
      assert a.n * SecondsPerHour <= t < (b.n + 1) * SecondsPerHour;
    } else if Rank(a) == Rank(b) && a.DaysAgo? {
      assert a.n * Config.SecondsPerDay <= t < (b.n + 1) * Config.SecondsPerDay;
    }
  }

  /** The text of a bucket; `date` is the date shown for a week or more. */
  function AgeText(a: Age, date: string): string {
    match a
    case JustNow => "just now"
    case MinutesAgo(n) => IntToDecimal(n) + "m ago"
    case HoursAgo(n) => IntToDecimal(n) + "h ago"
    case DaysAgo(n) => IntToDecimal(n) + "d ago"
    case Older => date
  }

  /** `relative_time`: "unknown" without a time; otherwise the age at `now`
      as "just now", whole minutes, hours or days elapsed, or, from a week
      on, the time formatted as a date by `formatDate` (`strftime("%b %d")`). */
  function RelativeTime(dt: Option<Time>, now: Time, formatDate: Time -> string): (r: string)
    ensures dt.None? ==> r == "unknown"
    ensures dt.Some? && now - dt.value < SecondsPerMinute ==> r == "just now"
    ensures dt.Some? && SecondsPerMinute <= now - dt.value < SecondsPerHour ==>
      exists n | 1 <= n < 60 && n * SecondsPerMinute <= now - dt.value < (n + 1) * SecondsPerMinute ::
        r == IntToDecimal(n) + "m ago"
    ensures dt.Some? && SecondsPerHour <= now - dt.value < Config.SecondsPerDay ==>
      exists n | 1 <= n < 24 && n * SecondsPerHour <= now - dt.value < (n + 1) * SecondsPerHour ::
        r == IntToDecimal(n) + "h ago"
    ensures dt.Some? && Config.SecondsPerDay <= now - dt.value < SecondsPerWeek ==>
      exists n | 1 <= n < 7 && n * Config.SecondsPerDay <= now - dt.value < (n + 1) * Config.SecondsPerDay ::
        r == IntToDecimal(n) + "d ago"
    ensures dt.Some? && now - dt.value >= SecondsPerWeek ==> r == formatDate(dt.value)
  {
    match dt
    case None => "unknown"
    case Some(t) => AgeText(Classify(now - t), formatDate(t))
  }

  // ============== Redirects ==============

  /** The 302 answer of a form handler: where to go, and the user key cookie
      it sets, if any. */
  datatype Redirect = Redirect(url: string, cookie: Option<string>)

  const ToSettings: Redirect := Redirect("/settings", None)
  const FeedMissing: Redirect := Redirect("/feeds?error=Feed+not+found", None)

  /** A redirect to the feeds page with a message. */
  function FeedsMessage(text: string): Redirect {
    Redirect("/feeds?message=" + text, None)
  }

  /** A redirect to the feeds page with an error. */
  function FeedsError(text: string): Redirect {
    Redirect("/feeds?error=" + text, None)
  }

  // ============== User key form ==============

  datatype KeyFormError = KeyRequired | KeyTooLong | KeyNotAlphanumeric

  /** The error parameter each refusal redirects with. */
  function KeyFormErrorText(e: KeyFormError): string {
    match e
    case KeyRequired => "Key+required"
    case KeyTooLong => "Key+too+long"
    case KeyNotAlphanumeric => "Key+must+be+alphanumeric"
  }

  /** The checks of `set_user_key` on the form value: it is stripped and
      lower-cased, then refused when empty, else when longer than 8, else
      when not alphanumeric; an accepted key is a valid stored key. */
  function CheckKeyForm(raw: string): (r: Result<string, KeyFormError>)
    ensures r == Failure(KeyRequired) <==> Strip(raw) == []
    ensures r == Failure(KeyTooLong) <==> |Strip(raw)| > Models.MaxKeyLength
    ensures r == Failure(KeyNotAlphanumeric) <==>
      1 <= |Strip(raw)| <= Models.MaxKeyLength && !IsAlnum(Strip(raw))
    ensures r.Success? ==> r.value == Lower(Strip(raw)) && Models.IsValidKey(r.value)
  {
    var key := Lower(Strip(raw));
    LowerFacts(Strip(raw));
    LowerKeepsAlnum(Strip(raw));
    if key == [] then Failure(KeyRequired)
    else if |key| > Models.MaxKeyLength then Failure(KeyTooLong)
    else if !IsAlnum(key) then Failure(KeyNotAlphanumeric)
    else Success(key)
  }

  /** Lower-casing keeps the length, and a string is alphanumeric exactly
      when its lower-cased form is. */
  lemma LowerKeepsAlnum(s: string)
    ensures |Lower(s)| == |s|
    ensures IsAlnum(Lower(s)) <==> IsAlnum(s)
  {
    LowerFacts(s);
    if IsAlnum(Lower(s)) {
      forall i | 0 <= i < |s| ensures IsAlnumChar(s[i]) {
        assert IsAlnumChar(Lower(s)[i]);
      }
    }
  }

  /** The page's key checks and the user model's key validator agree on a
      stripped key: both accept it, with the same lower-cased result, or
      both refuse it. */
  lemma KeyFormAgreesWithModel(raw: string)
    ensures CheckKeyForm(raw).Success? <==> Models.ValidateKey(Strip(raw)).Success?
    ensures CheckKeyForm(raw).Success? ==> CheckKeyForm(raw).value == Models.ValidateKey(Strip(raw)).value
  {
    var s := Strip(raw);
    LowerKeepsAlnum(s);
    if CheckKeyForm(raw).Success? {
      var k := Models.ValidateKey(s).value;
      assert |k| == |Lower(s)|;
      forall i | 0 <= i < |k| ensures k[i] == Lower(s)[i] {
        LowerFacts(s);
      }
    }
  }

  /** `set_user_key`: a refused key redirects back to the settings page with
      its error and changes nothing; an accepted key is looked up or created
      and set as the cookie on a redirect home. */
  method SetUserKey(db: Store, raw: string, now: Time) returns (r: Redirect)
    requires db.Valid()
    modifies db
    ensures db.Valid()
    ensures CheckKeyForm(raw).Failure? ==>
      r == Redirect("/settings?error=" + KeyFormErrorText(CheckKeyForm(raw).error), None) &&
      db.Snapshot() == old(db.Snapshot())
    ensures CheckKeyForm(raw).Success? ==>
      var key := CheckKeyForm(raw).value;
      r == Redirect("/", Some(key)) &&
      Crud.KeyTaken(db.users, key) &&
      (Crud.KeyTaken(old(db.users), key) ==> db.Snapshot() == old(db.Snapshot())) &&
      (!Crud.KeyTaken(old(db.users), key) ==> AddsOneUser(old(db.Snapshot()), db.Snapshot(), key, now))
  {
    var checked := CheckKeyForm(raw);
    if checked.Failure? {
      return Redirect("/settings?error=" + KeyFormErrorText(checked.error), None);
    }
    var key := checked.value;
    LowerOfLower(key);
    ghost var t := db.Snapshot();
    var user := Crud.GetOrCreateUser(db, key, now);
    if !Crud.KeyTaken(t.users, key) {
      AddOneUser(t, user.id, key, now);
    }
    r := Redirect("/", Some(key));
  }

  /** `u` is `t` with exactly one more user row, holding `key` and created
      at `now`, and nothing else changed. */
  predicate AddsOneUser(t: Tables, u: Tables, key: string, now: Time) {
    u == t.(users := u.users) &&
    |u.users| == |t.users| + 1 &&
    (forall id | id in t.users :: id in u.users && u.users[id] == t.users[id]) &&
    (forall id | id in u.users && id !in t.users :: u.users[id] == UserRow(key, now))
  }

  /** Inserting a user row at an id not yet taken adds exactly that user. */
  lemma AddOneUser(t: Tables, id: Id, key: string, now: Time)
    requires id !in t.users
    ensures AddsOneUser(t, t.(users := t.users[id := UserRow(key, now)]), key, now)
  {
    assert t.users[id := UserRow(key, now)].Keys == t.users.Keys + {id};
  }

  /** `generate_key`: creates a user with a freshly drawn key and sets it as
      the cookie; the insert fails, and nothing changes, when the drawn key
      is already taken. */
  method GenerateKey(db: Store, draw: nat -> nat, now: Time) returns (r: Result<Redirect, Crud.DbError>)
    requires db.Valid()
    modifies db
    ensures db.Valid()
    ensures var key := Models.GenerateUserKey(draw);
      (r.Failure? <==> Crud.KeyTaken(old(db.users), key)) &&
      (r.Failure? ==> db.Snapshot() == old(db.Snapshot())) &&
      (r.Success? ==>
         r.value == Redirect("/", Some(key)) && Crud.KeyTaken(db.users, key) &&
         AddsOneUser(old(db.Snapshot()), db.Snapshot(), key, now))
  {
    var created := Crud.CreateUser(db, None, draw, now);
    if created.Failure? {
      return Failure(created.error);
    }
    assert db.users[created.value.id].key == created.value.key;
    AddOneUser(old(db.Snapshot()), created.value.id, created.value.key, now);
    r := Success(Redirect("/", Some(created.value.key)));
  }

  // ============== Login and ownership ==============

  /** The user the cookie names: none without a cookie, with an empty one,
      or when no stored key matches it. */
  method CurrentUser(db: Store, cookie: Option<string>) returns (u: Option<Crud.User>)
    requires db.Valid()
    ensures u.None? <==> cookie.None? || cookie.value == [] || !Crud.KeyTaken(db.users, Lower(cookie.value))
    ensures u.Some? ==> u.value.id in db.users && db.users[u.value.id].key == Lower(cookie.value)
  {
    if cookie.None? || cookie.value == [] {
      return None;
    }
    u := Crud.GetUserByKey(db, cookie.value);
    if u.Some? {
      assert db.users[u.value.id].key == Lower(cookie.value);
    }
  }

  /** The id of the user the cookie logs in. */
  predicate LoggedIn(users: map<Id, UserRow>, cookie: Option<string>, userId: Id) {
    cookie.Some? && cookie.value != [] && userId in users && users[userId].key == Lower(cookie.value)
  }

  /** Some user is logged in by the cookie. */
  predicate HasUser(users: map<Id, UserRow>, cookie: Option<string>) {
    cookie.Some? && cookie.value != [] && Crud.KeyTaken(users, Lower(cookie.value))
  }

  /** The feed exists and belongs to the user the cookie logs in. */
  predicate Owns(t: Tables, cookie: Option<string>, feedId: Id) {
    feedId in t.feeds && LoggedIn(t.users, cookie, t.feeds[feedId].userId)
  }

  /** Stored keys are unique, so the cookie logs in at most one user. */
  lemma LoggedInUnique(t: Tables, cookie: Option<string>, u: Id, v: Id)
    requires Consistent(t)
    requires LoggedIn(t.users, cookie, u) && LoggedIn(t.users, cookie, v)
    ensures u == v
  {
  }

  // ============== Feed forms ==============

  /** `delete_feed`: without a known user, back to the settings page; a feed
      that is missing or belongs to someone else is "not found"; otherwise it
      is deleted with everything that refers to it. Only the owner's delete
      changes anything. */
  method DeleteFeedForm(db: Store, cookie: Option<string>, feedId: Id) returns (r: Redirect)
    requires db.Valid()
    modifies db
    ensures db.Valid()
    ensures !HasUser(old(db.users), cookie) ==> r == ToSettings
    ensures HasUser(old(db.users), cookie) && !Owns(old(db.Snapshot()), cookie, feedId) ==> r == FeedMissing
    ensures Owns(old(db.Snapshot()), cookie, feedId) ==>
      r == FeedsMessage("Feed+deleted") && db.Snapshot() == Crud.DeleteFeedTables(old(db.Snapshot()), feedId)
    ensures !Owns(old(db.Snapshot()), cookie, feedId) ==> db.Snapshot() == old(db.Snapshot())
  {
    var user := CurrentUser(db, cookie);
    if user.None? {
      return ToSettings;
    }
    var feed := Crud.GetFeed(db, feedId);
    if feed.Some? && feed.value.row.userId == user.value.id {
      var _ := Crud.DeleteFeed(db, feedId);
      return FeedsMessage("Feed+deleted");
    }
    if feedId in db.feeds && LoggedIn(db.users, cookie, db.feeds[feedId].userId) {
      LoggedInUnique(db.Snapshot(), cookie, db.feeds[feedId].userId, user.value.id);
    }
    r := FeedMissing;
  }

  /** `update_labels`: the guards of `delete_feed`; for the owner, the
      feed's labels become those of the form, parsed as `get_labels` does. */
  method UpdateLabelsForm(db: Store, cookie: Option<string>, feedId: Id, form: string) returns (r: Redirect)
    requires db.Valid()
    modifies db
    ensures db.Valid()
    ensures !HasUser(old(db.users), cookie) ==> r == ToSettings
    ensures HasUser(old(db.users), cookie) && !Owns(old(db.Snapshot()), cookie, feedId) ==> r == FeedMissing
    ensures Owns(old(db.Snapshot()), cookie, feedId) ==>
      r == FeedsMessage("Labels+updated") &&
      db.Snapshot() == old(db.Snapshot()).(labels := Crud.ReplaceLabels(old(db.labels), feedId, Models.GetLabels(form)))
    ensures !Owns(old(db.Snapshot()), cookie, feedId) ==> db.Snapshot() == old(db.Snapshot())
  {
    var user := CurrentUser(db, cookie);
    if user.None? {
      return ToSettings;
    }
    var feed := Crud.GetFeed(db, feedId);
    if feed.None? || feed.value.row.userId != user.value.id {
      if feedId in db.feeds && LoggedIn(db.users, cookie, db.feeds[feedId].userId) {
        LoggedInUnique(db.Snapshot(), cookie, db.feeds[feedId].userId, user.value.id);
      }
      return FeedMissing;
    }
    var labels := Models.GetLabels(form);
    var _ := Crud.SetFeedLabels(db, feedId, labels);
    r := FeedsMessage("Labels+updated");
  }

  /** The message after refreshing one feed. */
  function RefreshedMessage(count: nat): Redirect {
    FeedsMessage("Refreshed,+" + IntToDecimal(count) + "+new+articles")
  }

  /** `refresh_single_feed`: the guards of `delete_feed`; for the owner, the
      feed is refreshed and the redirect reports the new-article count, or
      that the refresh failed, in which case only the feed's fetch time
      changed. */
  method RefreshFeedForm(db: Store, cookie: Option<string>, feedId: Id, web: string -> FetchOutcome, p: Platform, now: Time)
      returns (r: Redirect)
    requires db.Valid()
    modifies db
    ensures db.Valid()
    ensures !HasUser(old(db.users), cookie) ==> r == ToSettings
    ensures HasUser(old(db.users), cookie) && !Owns(old(db.Snapshot()), cookie, feedId) ==> r == FeedMissing
    ensures !Owns(old(db.Snapshot()), cookie, feedId) ==> db.Snapshot() == old(db.Snapshot())
    ensures Owns(old(db.Snapshot()), cookie, feedId) && Ingest.FetchFor(old(db.feeds)[feedId].url, web, p).Failure? ==>
      r == FeedsError("Refresh+failed") &&
      db.Snapshot() == old(db.Snapshot()).(feeds := old(db.feeds)[feedId := old(db.feeds)[feedId].(lastFetched := Some(now))])
    ensures Owns(old(db.Snapshot()), cookie, feedId) && Ingest.FetchFor(old(db.feeds)[feedId].url, web, p).Success? ==>
      var fetched := Ingest.FetchFor(old(db.feeds)[feedId].url, web, p).value;
      var count := |Ingest.FreshGuids(old(db.articles), feedId, fetched.records)|;
      var row := old(db.feeds)[feedId];
      r == RefreshedMessage(count) && |db.articles| == |old(db.articles)| + count &&
      db.Snapshot() == old(db.Snapshot()).(
        feeds := old(db.feeds)[feedId := row.(title := Ingest.RefreshedTitle(row.title, fetched.title), lastFetched := Some(now))],
        articles := db.articles) &&
      Ingest.Inserted(old(db.articles), db.articles, feedId, fetched.records, now)
  {
    var user := CurrentUser(db, cookie);
    if user.None? {
      return ToSettings;
    }
    var feed := Crud.GetFeed(db, feedId);
    if feed.None? || feed.value.row.userId != user.value.id {
      if feedId in db.feeds && LoggedIn(db.users, cookie, db.feeds[feedId].userId) {
        LoggedInUnique(db.Snapshot(), cookie, db.feeds[feedId].userId, user.value.id);
      }
      return FeedMissing;
    }
    var refreshed := Ingest.RefreshFeed(db, feedId, web, p, now);
    if refreshed.Success? {
      r := RefreshedMessage(refreshed.value);
    } else {
      r := FeedsError("Refresh+failed");
    }
  }

  /** Characters of a refresh error the add-feed redirect carries. */
  const ErrorExcerptLength: nat := 50

  /** `add_feed`: without a known user, back to the settings page; the form's
      labels are parsed by `get_labels`; a feed the store refuses (the user
      already has that URL) gives "Failed to add feed" and changes nothing;
      otherwise the feed is added and refreshed at once, and a refresh that
      fails is reported with the first 50 characters of its error. */
  method AddFeedForm(db: Store, cookie: Option<string>, url: string, form: string,
                     web: string -> FetchOutcome, p: Platform, now: Time)
      returns (r: Redirect)
    requires db.Valid()
    modifies db
    ensures db.Valid()
    ensures !HasUser(old(db.users), cookie) ==> r == ToSettings && db.Snapshot() == old(db.Snapshot())
    ensures r == FeedsError("Failed+to+add+feed") ==> db.Snapshot() == old(db.Snapshot())
    ensures HasUser(old(db.users), cookie) && HasFeedAt(old(db.Snapshot()), cookie, url) ==>
      r == FeedsError("Failed+to+add+feed")
    ensures HasUser(old(db.users), cookie) && !HasFeedAt(old(db.Snapshot()), cookie, url) ==>
      r == AddedRedirect(Ingest.FetchFor(url, web, p))
  {
    var user := CurrentUser(db, cookie);
    if user.None? {
      return ToSettings;
    }
    ghost var t := db.Snapshot();
    var labels := Models.GetLabels(form);
    var created := Crud.CreateFeed(db, user.value.id, url, labels, now);
    HasFeedAtIsOwn(t, cookie, user.value.id, url);
    if created.Failure? {
      return FeedsError("Failed+to+add+feed");
    }
    r := RefreshAdded(db, created.value.id, web, p, now);
  }

  /** The creating half of `add_feed` with `create_feed` as written, for the
      logged-in user `userId`: an error from `create_feed` is answered with
      "Failed to add feed", and the tables are whatever `create_feed` left;
      on success the new feed goes on to its first refresh. */
  function AddFeedCreateAsWritten(t: Tables, userId: Id, url: string, form: string, feedId: Id, now: Time)
      : (r: (Tables, Result<Id, Redirect>))
    requires Consistent(t) && feedId !in t.feeds && userId in t.users
    ensures r.1.Failure? ==> r.1.error == FeedsError("Failed+to+add+feed")
    ensures r.1.Failure? <==>
      Crud.HasFeedUrl(t.feeds, userId, url) || Crud.RepeatsIgnoringCase(Models.GetLabels(form))
    ensures Crud.HasFeedUrl(t.feeds, userId, url) ==> r.0 == t
    ensures r.1.Success? ==>
      r.1.value == feedId &&
      r.0 == t.(feeds := t.feeds[feedId := FeedRow(userId, url, None, None, now)],
                labels := Crud.ReplaceLabels(t.labels, feedId, Models.GetLabels(form)))
    ensures r.1.Failure? && !Crud.HasFeedUrl(t.feeds, userId, url) ==>
      r.0 == t.(feeds := t.feeds[feedId := FeedRow(userId, url, None, None, now)])
  {
    var created := Crud.CreateFeedAsWritten(t, feedId, userId, url, Models.GetLabels(form), now);
    match created.1
    case Success(id) => (created.0, Success(id))
    case Failure(_) => (created.0, Failure(FeedsError("Failed+to+add+feed")))
  }

  /** The labels form "tech,Tech" parses to the same label twice. */
  lemma TechTechLabels()
    ensures Models.GetLabels("tech,Tech") == ["tech", "tech"]
  {
    TechTechSplit();
    TechTechNormal();
  }

  /** "tech,Tech" splits at its comma into "tech" and "Tech". */
  lemma TechTechSplit()
    ensures Split("tech,Tech", ',') == ["tech", "Tech"]
  {
    var form := "tech,Tech";
    assert form[4] == ',';
    assert IndexOf(form, ',') == 4;
    assert form[..4] == "tech" && form[5..] == "Tech";
    assert ',' !in "Tech";
    assert Split("Tech", ',') == ["Tech"];
  }

  /** "tech" and "Tech" both normalise to "tech". */
  lemma TechTechNormal()
    ensures Models.NormalizeLabels(["tech", "Tech"]) == ["tech", "tech"]
  {
    KeepStripped("tech");
    KeepStripped("Tech");
    LowerTech();
    assert ["tech", "Tech"][1..] == ["Tech"];
  }

  /** A non-empty label without whitespace borders is kept lower-cased. */
  lemma KeepStripped(l: string)
    requires l != [] && IsStripped(l)
    ensures Models.Keep(l) == [Lower(l)]
  {
    StripStripped(l);
  }

  /** Lower-casing either spelling gives "tech". */
  lemma LowerTech()
    ensures Lower("Tech") == "tech" && Lower("tech") == "tech"
  {
    assert LowerChar('T') == 't';
  }

  /** As written, a form repeating a label ignoring case ("tech,Tech") makes
      `add_feed` answer "Failed to add feed" although the feed row it created
      stays in the store. */
  lemma AddFeedAsWrittenKeepsFeedOnTechTech(t: Tables, userId: Id, url: string, feedId: Id, now: Time)
    requires Consistent(t) && feedId !in t.feeds && userId in t.users
    requires !Crud.HasFeedUrl(t.feeds, userId, url)
    ensures var r := AddFeedCreateAsWritten(t, userId, url, "tech,Tech", feedId, now);
      r.1 == Failure(FeedsError("Failed+to+add+feed")) &&
      feedId in r.0.feeds && r.0.feeds[feedId] == FeedRow(userId, url, None, None, now)
  {
    TechTechLabels();
    var labels := Models.GetLabels("tech,Tech");
    assert Lower(labels[0]) == Lower(labels[1]);
    assert Crud.RepeatsIgnoringCase(labels);
  }

  /** The user the cookie logs in already has a feed with this url. */
  predicate HasFeedAt(t: Tables, cookie: Option<string>, url: string) {
    exists f | f in t.feeds :: Owns(t, cookie, f) && t.feeds[f].url == url
  }

  /** For the user the cookie logs in, having a feed at `url` is what makes
      creating another one fail. */
  lemma HasFeedAtIsOwn(t: Tables, cookie: Option<string>, userId: Id, url: string)
    requires Consistent(t) && LoggedIn(t.users, cookie, userId)
    ensures HasFeedAt(t, cookie, url) <==>
      exists f | f in t.feeds :: t.feeds[f].userId == userId && t.feeds[f].url == url
  {
    if HasFeedAt(t, cookie, url) {
      var f :| f in t.feeds && Owns(t, cookie, f) && t.feeds[f].url == url;
      LoggedInUnique(t, cookie, t.feeds[f].userId, userId);
    }
  }

  /** Where `add_feed` sends the user once the feed is created: the success
      message when the first fetch worked, otherwise the start of the
      error's text. */
  function AddedRedirect(fetched: Result<FetchedFeed, FeedError>): (r: Redirect)
    ensures r.cookie.None?
    ensures fetched.Success? <==> r == FeedsMessage("Feed+added+successfully")
    ensures fetched.Failure? ==>
      var head := FeedsError("Feed+added+but+refresh+failed:+").url;
      var m := fetched.error.message;
      |r.url| == |head| + (if |m| <= ErrorExcerptLength then |m| else ErrorExcerptLength) &&
      r.url[..|head|] == head && r.url[|head|..] == m[..|r.url| - |head|]
  {
    if fetched.Success? then FeedsMessage("Feed+added+successfully")
    else FeedsError("Feed+added+but+refresh+failed:+" + Take(fetched.error.message, ErrorExcerptLength))
  }

  /** The refresh `add_feed` runs on the feed it just created. */
  method RefreshAdded(db: Store, feedId: Id, web: string -> FetchOutcome, p: Platform, now: Time)
      returns (r: Redirect)
    requires db.Valid() && feedId in db.feeds
    modifies db
    ensures db.Valid()
    ensures r == AddedRedirect(Ingest.FetchFor(old(db.feeds)[feedId].url, web, p))
  {
    var refreshed := Ingest.RefreshFeed(db, feedId, web, p, now);
    if refreshed.Success? {
      r := FeedsMessage("Feed+added+successfully");
    } else if refreshed.error.FetchFailed? {
      r := FeedsError("Feed+added+but+refresh+failed:+" + Take(refreshed.error.error.message, ErrorExcerptLength));
    } else {
      r := FeedsError("Failed+to+add+feed");
    }
  }

  // ============== Refresh all ==============

  /** Where `refresh_all` sends the user back: the referring page, with the
      total appended as a `message` query parameter, joined by "&" when the
      referer already has a query and by "?" otherwise. */
  function RefreshedUrl(referer: string, total: nat): (u: string)
    ensures |u| > |referer| && u[..|referer|] == referer
    ensures u[|referer|] == (if '?' in referer then '&' else '?')
    ensures u[|referer| + 1..] == "message=Refreshed,+" + IntToDecimal(total) + "+new+articles"
    ensures '?' in u
  {
    var sep := if '?' in referer then "&" else "?";
    var u := referer + sep + "message=Refreshed,+" + IntToDecimal(total) + "+new+articles";
    assert u[|referer|] == sep[0];
    assert u[|referer| + 1..] == "message=Refreshed,+" + IntToDecimal(total) + "+new+articles";
    u
  }

  /** `refresh_all`: without a known user, back to the settings page and
      nothing changes; otherwise every feed of the user is refreshed and the
      redirect goes back to the referer ("/" without one) with the number
      of new articles over the feeds that did not fail. */
  method RefreshAllForm(db: Store, cookie: Option<string>, referer: Option<string>,
                        web: string -> FetchOutcome, p: Platform, now: Time)
      returns (r: Redirect)
    requires db.Valid()
    modifies db
    ensures db.Valid()
    ensures !HasUser(old(db.users), cookie) ==> r == ToSettings && db.Snapshot() == old(db.Snapshot())
    ensures |db.articles| >= |old(db.articles)|
    ensures HasUser(old(db.users), cookie) ==>
      r == Redirect(RefreshedUrl(referer.GetOr("/"), |db.articles| - |old(db.articles)|), None)
    ensures forall u | LoggedIn(old(db.users), cookie, u) ::
      Ingest.AllRefreshed(old(db.Snapshot()), db.Snapshot(), u, web, p, now)
  {
    ghost var t0 := db.Snapshot();
    var user := CurrentUser(db, cookie);
    if user.None? {
      return ToSettings;
    }
    var results := Ingest.RefreshAllFeeds(db, user.value.id, web, p, now);
    var total := Ingest.TotalNew(results);
    r := Redirect(RefreshedUrl(referer.GetOr("/"), total), None);
    forall u | LoggedIn(t0.users, cookie, u)
      ensures Ingest.AllRefreshed(t0, db.Snapshot(), u, web, p, now)
    {
      LoggedInUnique(t0, cookie, u, user.value.id);
    }
  }
}
