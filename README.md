# eink-rss-reader in Dafny

A model of the core of a small personal RSS/Atom reader: the feed
normaliser, the ingestion engine that refreshes feeds into the store, the
store itself with the constraints of its SQLite schema, the request
validators, and the logic of the HTML form handlers. Each piece is modelled
in the form of the Python it comes from. Pure functions become functions. The
connection object and the store become classes. Loops that update tables
become methods with loop invariants, and each is proved against a
specification function.

Modules, one per file:

- `Wrappers` holds `Option` and `Result`.
- `Text` models the ASCII behaviour of `strip`, `lower`, `isalnum`, `split(",")`, `s[:n]` and `str(int)`.
- `Ordering` holds lexicographic keys, a sort by key, and the BINARY collation of SQLite text.
- `Config` holds the default settings.
- `Schema` holds the five tables and their UNIQUE, PRIMARY KEY and FOREIGN KEY constraints, and the `Store` class the connection sees.
- `Database` models the connection lifecycle and the commit-or-rollback transaction.
- `Normalizer` models the pure part of `app/services/feed.py`.
- `Ingest` models `refresh_feed`, `refresh_all_feeds` and `cleanup_old_articles` over a `Store`.
- `Crud` models `app/services/crud.py`.
- `Models` models the validators of `app/models.py`.
- `Pages` models the helpers and the form handlers of `app/routers/pages.py`.

The network, the feed parser and the platform are inputs:

- `web: string -> FetchOutcome` is what fetching a URL gives.
- `Platform` carries `hash(str(entry))` and `fromtimestamp(mktime(t))`.
- `now` is a parameter.
- `formatDate` stands for `strftime("%b %d")`.
- `draw` stands for the random choices of `secrets.choice`.

Timestamps are whole seconds. `Schema.SchemaConsistent` holds the schema's
constraints, which are what a commit checks. `Store.Valid()` adds the
reader's own invariant that user keys and labels are stored lower-cased.
Every store operation of the reader keeps `Store.Valid()`.

## Model

| member | source | states |
|---|---|---|
| Text.Strip | app/models.py:55 | the result is the input with its leading and trailing whitespace cut off: a contiguous slice of the input, all whitespace outside it, none at its ends; empty exactly when the input is all whitespace |
| Text.TrimBothCore | app/models.py:55 | cutting the whitespace off the left and then off the right leaves the input's core between whitespace-only ends |
| Text.Lower | app/services/crud.py:22 | lower-casing keeps the length and maps each position through ASCII lower-casing |
| Text.JoinSplit | app/models.py:138 | joining the parts of `split(sep)` with `sep` gives back the string |
| Text.SplitJoin | app/models.py:138 | splitting the join of comma-free parts gives back the parts |
| Text.DecimalRoundTrip | app/routers/pages.py:272 | reading back the decimal text of `n` gives `n` |
| Text.IntToDecimal | app/routers/pages.py:297 | `str(i)` is never empty; its digits denote `abs(i)`, with a leading minus sign exactly for negative `i`, and there is no leading zero except in "0" itself |
| Ordering.LexLtTransitive | app/services/crud.py:93 | the key order is transitive |
| Ordering.LexLtTotal | app/services/crud.py:93 | any two keys are equal or ordered one way or the other |
| Ordering.InsertByKeySorted | app/services/crud.py:93 | inserting an element with a new key into a sorted list keeps it sorted |
| Ordering.SortByKey | app/services/crud.py:93 | lists a finite set with keys that tell elements apart in strictly increasing key order, each element once |
| Ordering.SortTexts | app/services/crud.py:59 | `ORDER BY` over distinct texts: ascending in BINARY order, exactly the set's elements |
| Ordering.StringKeyThen | app/services/crud.py:93 | ordering by a text column then more columns is ordering by the text first, the rest breaking ties |
| Ordering.TextLtTotal | app/services/crud.py:59 | two different texts are ordered one way or the other |
| Schema.NextRowId | app/database.py:12 | the id of a new row is 1 for an empty table and otherwise one more than the largest id, so it is new |
| Schema.Store.constructor | app/database.py:9-60 | a new database has every table empty and keeps the constraints |
| Database.Commit | app/database.py:99-107 | a transaction body's writes are kept exactly when it finishes and they keep the schema's UNIQUE, PRIMARY KEY and FOREIGN KEY constraints (app/database.py:9-60); otherwise the tables are as before and the body's error (or the constraint error) is raised |
| Database.CommitKeepsUpperCaseKey | app/database.py:9-16 | writes that break only the reader's lower-case convention, such as the user key "ABC", are committed, since the schema does not check case |
| Database.Database.constructor | app/database.py:70-72 | a new database object is not connected |
| Database.Database.Connect | app/database.py:74-84 | after `connect` a fresh connection sees the tables on disk |
| Database.Database.Disconnect | app/database.py:86-90 | after `disconnect` there is no connection, whether there was one or not |
| Database.Database.Connection | app/database.py:92-97 | the property fails with the not-connected error exactly when there is no connection, and otherwise gives it |
| Database.Database.Transaction | app/database.py:99-107 | without a connection the not-connected error; otherwise the tables and outcome are those of `Commit`; the schema's constraints always hold afterwards, and the whole store invariant holds when the writes keep keys and labels lower-case |
| Normalizer.FirstConverted | app/services/feed.py:26-32 | the first field that is present and converts gives the time; None exactly when no field converts |
| Normalizer.ParseDatetime | app/services/feed.py:24-32 | published, then updated, then created, each skipped when missing or when conversion fails |
| Normalizer.GetContent | app/services/feed.py:35-47 | a non-empty first content block wins, else a non-empty summary, cut to 50000 characters; None exactly when both are empty |
| Normalizer.GetGuid | app/services/feed.py:50-59 | id, else link, else title (first non-empty), else the hash's decimal text; never empty |
| Normalizer.GuidPrecedenceExamples | app/services/feed.py:53-59 | the id beats the link and the title; the link beats the title |
| Normalizer.LongContentIsCut | app/services/feed.py:41 | a 100000-character content block is kept as its first 50000 characters |
| Normalizer.RecordSummary | app/services/feed.py:100 | present exactly for a non-empty summary, then its first 500 characters |
| Normalizer.BuildRecord | app/services/feed.py:95-102 | a record has the entry's guid by `get_guid` (never empty), the entry's title and link, the content by `get_content`, the summary by the summary rule and the date by `parse_datetime`; content and summary are bounded |
| Normalizer.ParseFeed | app/services/feed.py:75-82 | refuses a document exactly when it is malformed and has no entries; a malformed document with entries is accepted |
| Normalizer.FetchAndParse | app/services/feed.py:85-105 | HTTP and transport errors give their messages; otherwise the parse rule; on success one record per entry in order, and the title defaults to the URL |
| Models.GenerateUserKey | app/models.py:10-13 | a generated key has 8 characters, each from the lower-case letters and digits, whatever the random choices |
| Models.KeyAlphabetIsLowerAlnum | app/models.py:12 | the key alphabet holds only lower-case ASCII letters and digits |
| Models.GeneratedKeyIsValid | app/models.py:10-27 | every generated key passes the key validator unchanged |
| Models.ValidateKey | app/models.py:19-27 | a key is accepted exactly when it has 1 to 8 characters and is alphanumeric; the length is checked first; the result is the key lower-cased |
| Models.ValidateKeyIdempotent | app/models.py:24-27 | validating an accepted key again returns it unchanged |
| Models.NormalizeLabel | app/models.py:55 | a label normalises to its stripped text with each character lower-cased; that is empty exactly when the label strips to nothing, and otherwise a stripped, lower-case, non-empty label |
| Models.NormalizeLabels | app/models.py:53-55 | the normalised list is no longer than the input |
| Models.NormalizeLabelsFromInput | app/models.py:53-55 | each surviving label is some input label that does not strip to nothing, stripped and lower-cased |
| Models.NormalizeLabelsKeepsInput | app/models.py:53-55 | every input label that does not strip to nothing survives, stripped and lower-cased |
| Models.NormalizeLabelsNormal | app/models.py:55 | every label that survives normalisation is stripped, lower-case and non-empty |
| Models.NormalizeLabelsAppend | app/models.py:55 | normalisation works label by label, so surviving labels keep their input order |
| Models.NormalizeKeepsNormal | app/models.py:55 | a list of normal labels is left as it is |
| Models.NormalizeLabelsIdempotent | app/models.py:63-64 | normalising twice is normalising once |
| Models.NormalizeLabelsNoComma | app/models.py:138 | labels without commas stay without commas |
| Models.GetLabels | app/models.py:134-138 | the empty form gives no labels; every label is normal and has no comma |
| Models.GetLabelsIsSplitNormalize | app/models.py:136-138 | the empty-string guard changes nothing: the result is the normalised split, as in the inline parsing of app/routers/pages.py |
| Models.LabelsFormRoundTrip | app/models.py:134-138 | normal comma-free labels, written comma-separated, are read back unchanged |
| Models.ValidateFeedCreate | app/models.py:44-55 | the feed model is accepted exactly when the URL is non-empty, keeping the URL and with the labels `validate_labels` gives, all normal; otherwise the pydantic error for the URL |
| Crud.GetUserByKey | app/services/crud.py:18-27 | finds a user exactly when some stored key equals the lower-cased key, and returns that user |
| Crud.NewUserKey | app/services/crud.py:30-34 | the stored key is the given key lower-cased, or a valid generated key |
| Crud.CreateUser | app/services/crud.py:30-42 | fails, changing nothing, exactly when the key is taken; otherwise adds exactly one user row with the key |
| Crud.GetOrCreateUser | app/services/crud.py:45-50 | returns the user with the lower-cased key; nothing changes when the key exists, and otherwise exactly one user is added |
| Crud.ReplaceLabels | app/services/crud.py:66-79 | other feeds' labels are kept (`LabelsExcept`, the `DELETE`); the feed's labels are exactly the lower-cased given labels |
| Crud.ReplaceLabelsConsistent | app/database.py:30-35 | replacing an existing feed's labels keeps the constraints |
| Crud.GetFeedLabels | app/services/crud.py:56-63 | the feed's labels, ascending, each once |
| Crud.SetFeedLabels | app/services/crud.py:66-79 | fails, changing nothing, exactly for a missing feed with labels; otherwise only the labels change, to `ReplaceLabels` |
| Crud.InsertLabelsAsWritten | app/services/crud.py:74-78 | when the insert loop succeeds it has added the lower-cased labels |
| Crud.SetLabelsAsWritten | app/services/crud.py:66-79 | when the delete and insert succeed the result is `ReplaceLabels` |
| Crud.InsertLabelsAsWrittenFails | app/services/crud.py:74-78 | the insert loop fails exactly when a label repeats, ignoring case, or is already present |
| Crud.SetLabelsAsWrittenFailsOnRepeat | app/services/crud.py:66-79 | the code as written fails exactly when a label repeats ignoring case, and otherwise agrees with `ReplaceLabels` |
| Crud.SetLabelsAsWrittenRejectsTechTech | app/services/crud.py:74-78 | the labels "tech" and "Tech" make the code as written fail |
| Crud.GetAllUserLabels | app/services/crud.py:173-186 | the distinct labels over the user's feeds only, ascending |
| Crud.GetFeed | app/services/crud.py:117-145 | a feed exactly when it exists, with its row, its labels in order and its article count |
| Crud.CreateFeed | app/services/crud.py:148-160 | a missing user breaks the foreign key; an existing URL of the user breaks the uniqueness, changing nothing; otherwise exactly one new feed row (no title, never fetched) with its labels and no articles |
| Crud.CreateFeedAsWritten | app/services/crud.py:148-160 | as written: the feed row is inserted and committed before the labels; a label repeated ignoring case then fails, leaving the committed feed without labels |
| Crud.AddFeedConsistent | app/database.py:18-27 | a new feed of an existing user, at a URL the user does not have, keeps the constraints and has no labels or articles |
| Crud.DeleteFeedTables | app/database.py:34 | after deleting a feed nothing refers to it: the feed, its labels, its articles and their read marks go by `ON DELETE CASCADE` (app/database.py:48, 59), and every other feed, label, article, read mark and user stays as it was |
| Crud.DeleteFeedConsistent | app/database.py:30-60 | deleting a feed with its cascades keeps the constraints |
| Crud.DeleteFeed | app/services/crud.py:163-170 | true exactly when the feed existed; the tables become `DeleteFeedTables` |
| Crud.FeedKeyOrder | app/services/crud.py:93 | the feed key orders feeds exactly as `ORDER BY f.title, f.url`, NULL titles first |
| Crud.FeedKeyInjective | app/services/crud.py:93 | feeds with equal keys have the same title and URL |
| Crud.SortFeedIds | app/services/crud.py:84-97 | the user's feed ids, each once, in `ORDER BY f.title, f.url` order |
| Crud.GetUserFeeds | app/services/crud.py:82-114 | every feed of the user exactly, each as `get_feed` reports it, in title then URL order |
| Crud.ArticleKeyOrder | app/services/crud.py:243 | the article key puts `a` first whenever `published_at DESC NULLS LAST, fetched_at DESC` does, and otherwise only breaks ties |
| Crud.LabelFilter | app/services/crud.py:210-212 | a label filter applies exactly for a non-empty label, and compares its lower-cased form |
| Crud.ArticleItem | app/services/crud.py:237 | an article is read exactly when the asking user has a read mark on it |
| Crud.TotalPages | app/services/crud.py:229 | `max(1, ceil(n / per_page))`: at least 1, and the pages before the last do not hold all `n` articles |
| Crud.PageStart | app/services/crud.py:201 | the page starts at `(page - 1) * per_page`, at 0 for a page below 1, and at the end of the list for a page past it |
| Crud.PageEnd | app/services/crud.py:244 | a page holds at most `per_page` articles, and fewer only at the end of the list |
| Crud.HasNextExactlyWhenMoreRemain | app/services/crud.py:271-272 | `has_next` holds exactly when articles remain after the page |
| Crud.EveryArticleOnAPage | app/services/crud.py:229 | every article of the list is on one of the pages 1 to `total_pages` |
| Crud.ListArticleIds | app/services/crud.py:232-248 | exactly the articles of the user's feeds passing the read and label filters, each once, never out of SQL order |
| Crud.GetArticles | app/services/crud.py:192-273 | the count is of distinct listed articles; the page is the slice at the offset, at most `per_page`, without content; `has_prev` and `has_next` as the page arithmetic says |
| Crud.GetArticle | app/services/crud.py:276-308 | an article exactly when it exists, with its content, feed title and read flag |
| Crud.MarkedRead | app/services/crud.py:315 | the pair is marked; every other mark and an existing mark's time are kept |
| Crud.MarkedReadIdempotent | app/services/crud.py:311-320 | marking read twice is marking read once |
| Crud.UnreadAfterRead | app/services/crud.py:311-329 | read then unread leaves the article unread and every other mark as it was |
| Crud.MarkArticleRead | app/services/crud.py:311-320 | a missing user or article breaks a foreign key and changes nothing; otherwise only the read marks change, to `MarkedRead` |
| Crud.MarkArticleUnread | app/services/crud.py:323-329 | only the user's mark on the article is removed |
| Ingest.FirstWithGuid | app/services/feed.py:138-158 | a record with the guid exists exactly when the guid is among the records, and the first one is returned |
| Ingest.GuidsSnoc | app/services/feed.py:138-158 | one more record adds its guid, and is the first with it exactly when no earlier record has it |
| Ingest.RefreshAgainAddsNothing | app/services/feed.py:137-158 | after a pass every entry's guid is present, so a second refresh with the same entries adds nothing |
| Ingest.InsertedSkip | app/services/feed.py:156-158 | skipping a record whose guid the feed has keeps the pass's description |
| Ingest.InsertedAdd | app/services/feed.py:140-155 | inserting a record with a new guid keeps the pass's description and adds its guid |
| Ingest.AddKeepsConsistent | app/database.py:48-49 | a row with a new `(feed_id, guid)` keeps the articles' constraints |
| Ingest.FreshCount | app/services/feed.py:155 | the number of fresh guids is what the pass adds to the feed's guids |
| Ingest.InsertNext | app/services/feed.py:139-158 | one step of the insert loop keeps its invariant |
| Ingest.InsertAll | app/services/feed.py:137-158 | insert-or-skip keyed on `(feed_id, guid)`: old rows untouched, new rows from the first record with each guid, the count is the number of fresh guids |
| Ingest.InsertRecords | app/services/feed.py:137-158 | the insert loop on the store changes only the articles, as `InsertAll` says |
| Ingest.RefreshedTitle | app/services/feed.py:133-134 | the title changes only to a non-empty fetched title, and always does for one |
| Ingest.RefreshedRow | app/services/feed.py:121-134 | a refresh attempt keeps the feed's user and URL, sets `last_fetched` to now, and applies the title rule only when the fetch worked |
| Ingest.RowUpdateConsistent | app/database.py:18-27 | changing a feed row in anything but its user and URL keeps the constraints |
| Ingest.UpdateFeedRow | app/services/feed.py:134 | only the feed's row changes |
| Ingest.ApplyFetched | app/services/feed.py:132-167 | the title rule, the insert-or-skip pass and `last_fetched := now`; nothing else changes |
| Ingest.RefreshFeed | app/services/feed.py:108-167 | an unknown feed fails and changes nothing; a failed fetch or parse sets only `last_fetched` and re-raises; otherwise the title rule, the pass and the count of fresh guids |
| Ingest.TotalNewSnoc | app/routers/pages.py:292 | one more result adds its count, and an error adds nothing |
| Ingest.TotalNewBounds | app/routers/pages.py:292 | errors add nothing to the total, and the total is at least each count |
| Ingest.ProgressStep | app/services/feed.py:178-184 | reporting one more feed keeps the loop's progress |
| Ingest.ReportedSnoc | app/services/feed.py:178-184 | reporting a feed that was left moves it from the feeds left to the feeds reported |
| Ingest.DistinctSnoc | app/services/feed.py:178-184 | reporting a feed that was left never reports a feed twice |
| Ingest.ProgressDone | app/services/feed.py:174-186 | when no feed is left, exactly the user's feeds are reported |
| Ingest.RefreshOne | app/services/feed.py:180-184 | one feed is refreshed and reported (count or error text): its row becomes `RefreshedRow` of its fetch and its guids gain the fetched ones; other feeds' guids and old articles are kept |
| Ingest.InsertedOthers | app/services/feed.py:137-158 | a pass for one feed leaves every other feed's guids as they were |
| Ingest.RefreshNext | app/services/feed.py:178-184 | one turn of the loop keeps its invariant: the feeds done are refreshed, the others untouched, and one feed leaves those left |
| Ingest.RefreshedFeedsStep | app/services/feed.py:178-184 | refreshing one more feed of those left, leaving the others alone, moves it to the refreshed ones |
| Ingest.ReportsUntouched | app/services/feed.py:181-182 | a count or error reported against a feed not yet touched is the one the original tables give |
| Ingest.RefreshAllFeeds | app/services/feed.py:170-186 | one entry per feed of the user, each feed once; the error text for a failed fetch, otherwise the number of its fresh guids; no error escapes; users, labels and read marks unchanged, each of the user's feeds gets `RefreshedRow` of its fetch and its fetched guids, every other feed is untouched, old articles are kept and the articles grow by the total |
| Ingest.CleanupOldArticles | app/services/feed.py:189-202 | deletes exactly the articles fetched before `now` minus 90 days (`Expired`) with their read marks, keeps all else, and returns how many it deleted |
| Pages.Classify | app/routers/pages.py:30-43 | the bucket boundaries at 60, 3600, 86400 and 604800 seconds; each count is the number of whole units elapsed, 1 to 59 minutes, 1 to 23 hours, 1 to 6 days |
| Pages.ClassifyMonotone | app/routers/pages.py:31-43 | an older time never shows as newer |
| Pages.RelativeTime | app/routers/pages.py:22-43 | "unknown" without a time; "just now", whole minutes, hours or days; the formatted date from a week on |
| Pages.CheckKeyForm | app/routers/pages.py:357-366 | the stripped, lower-cased key is refused when empty, else when longer than 8, else when not alphanumeric; an accepted key is a valid stored key |
| Pages.LowerKeepsAlnum | app/routers/pages.py:365 | lower-casing keeps the length and whether a string is alphanumeric |
| Pages.KeyFormAgreesWithModel | app/routers/pages.py:357-366 | the page's key checks accept exactly what the user model's validator accepts, with the same result |
| Pages.SetUserKey | app/routers/pages.py:350-380 | a refused key redirects with its error and changes nothing; an accepted key exists afterwards and becomes the cookie; an existing key changes nothing, a new one adds exactly one user row with it |
| Pages.GenerateKey | app/routers/pages.py:383-400 | exactly one user row with the generated key and `now` is added, at a fresh id, and set as the cookie; a taken key fails and changes nothing |
| Pages.CurrentUser | app/routers/pages.py:204-210 | no user without a cookie, with an empty one, or when no stored key matches it |
| Pages.LoggedInUnique | app/database.py:13 | keys are unique, so a cookie logs in at most one user |
| Pages.DeleteFeedForm | app/routers/pages.py:227-248 | only the owner's delete changes anything, and it removes the feed with all that refers to it; others get "not found" |
| Pages.UpdateLabelsForm | app/routers/pages.py:300-323 | for the owner the labels become the parsed form labels; others get "not found" and nothing changes |
| Pages.RefreshFeedForm | app/routers/pages.py:251-274 | for the owner a failed refresh sets only the fetch time and says so; a successful one applies the title rule, sets the fetch time, inserts the pass's articles and reports their number; others get "not found" |
| Pages.AddFeedForm | app/routers/pages.py:196-224 | without a user, back to settings; a URL the user already has gives "Failed to add feed" and changes nothing; otherwise the redirect reports the first refresh |
| Pages.AddFeedCreateAsWritten | app/routers/pages.py:213-224 | as written: "Failed to add feed" exactly when the user has the URL or a label repeats ignoring case; in the second case the new feed row stays |
| Pages.AddFeedAsWrittenKeepsFeedOnTechTech | app/routers/pages.py:213-224 | as written, the labels form "tech,Tech" answers "Failed to add feed" yet keeps the new feed |
| Pages.TechTechLabels | app/routers/pages.py:213 | the form "tech,Tech" parses to the labels `["tech", "tech"]` |
| Pages.HasFeedAtIsOwn | app/routers/pages.py:216 | for the logged-in user, already having the URL is what makes creating the feed fail |
| Pages.AddedRedirect | app/routers/pages.py:218-222 | success exactly when the fetch worked; otherwise the error's first 50 characters |
| Pages.RefreshAdded | app/routers/pages.py:218-224 | the redirect after the first refresh of a new feed is `AddedRedirect` of its fetch |
| Pages.RefreshedUrl | app/routers/pages.py:294-297 | the referer, then "&" exactly when it already has a "?" and "?" otherwise, then the message with the total |
| Pages.RefreshAllForm | app/routers/pages.py:277-297 | without a user, back to settings and nothing changes; otherwise the referer (or "/") with the number of new articles, and the tables are those `refresh_all_feeds` leaves for the logged-in user |

## Left out

- `app/services/scheduler.py`: periodic background refresh; its only logic, the sum of counts, is `Ingest.TotalNew`.
- `app/config.py` environment loading, `app/main.py` and `app/routers/api.py`: only the default settings are kept.
- `fetch_feed_content`: the HTTP request is the `web` parameter, and its two error messages are modelled.
- `feedparser.parse`: its output is the `ParsedDocument` datatype (bozo flag, title, entries); RSS and Atom parsing are not modelled.
- `mktime`, `datetime.fromtimestamp`, `hash(str(entry))`, `datetime.now()` and `strftime`: parameters (`Platform`, `now`, `formatDate`).
- Timestamps are integer seconds. The floats of `total_seconds()` are not modelled. Neither is SQLite's comparison of timestamps as text, nor the UTC `CURRENT_TIMESTAMP` against local `datetime.now()`.
- Python's Unicode `strip`, `lower` and `isalnum`: modelled over ASCII only.
- The catch-all `except Exception` around each article insert: the only insert failure modelled is the duplicate `(feed_id, guid)`.
- Concurrency and `async`: a scheduled refresh and a manual one are not interleaved; every operation runs alone.
- Templates, cookie attributes (`max_age`, `httponly`, `samesite`), status codes, and the GET pages (`home`, `article_detail`, `feeds_page`, `settings_page`) and the `mark_read`/`mark_unread` routes: page rendering only; the store operations they call are modelled.
- `Connect`: the database path and the creation of its directory are not modelled; the tables on disk are a parameter.
- `Database.Database.Transaction`: the body is a function of the tables; several commits inside a body, and writes left pending by a failed statement outside a transaction, are not modelled.
- Database.Database.Transaction: promises `Store.Valid()` afterwards only when the body's writes keep keys and labels lower-case. SQLite does not check case, so such a commit goes through (`Database.CommitKeepsUpperCaseKey`), and the rest of the model assumes lower-case keys and labels.
- `Database.ConstraintFailed` stands for the text of SQLite's IntegrityError, which the code does not inspect.
- Crud.ListArticleIds: rows equal on `published_at` and `fetched_at` are listed newest id first; SQL leaves their order open.
- Ingest.RefreshAllFeeds: the feeds are refreshed in an unspecified order, all at one `now`; the result is a list of distinct `(feed id, outcome)` pairs rather than a dict. Each feed's new articles are stated by their guids, not row by row; `Ingest.RefreshFeed` states the rows.
- Pages.AddFeedForm: does not state the rows the new feed and its first refresh add; `Crud.CreateFeed` and `Ingest.RefreshFeed` state those. Its `FeedNotFound` branch is unreachable.
- Pages.GenerateKey: the code lets a taken key's IntegrityError escape; the model returns it as a failure.
- Pages.RefreshAllForm: states the total as the growth of the articles table, which `Ingest.RefreshAllFeeds` proves equal to the sum of the counts.
- Crud.CreateFeed: replaces the labels as a set, the corrected behaviour; as written, a label repeated ignoring case fails after the feed row is committed (`Crud.CreateFeedAsWritten`, see Findings).
- Pages.UpdateLabelsForm: replaces the labels as a set; as written, a label repeated ignoring case makes `set_feed_labels` raise, which the handler does not catch (a server error), and the deleted labels stay pending on the connection (`Crud.SetLabelsAsWrittenFailsOnRepeat`).
- Pages.AddFeedForm: uses the corrected `Crud.CreateFeed`; as written, a label repeated ignoring case answers "Failed to add feed" while the feed stays (`Pages.AddFeedCreateAsWritten`, see Findings).
- `get_article` does no ownership check; the model keeps that as it is.

## Findings

| source | as written | input that shows it | evidently intended | confidence | as-written member | corrected member |
|---|---|---|---|---|---|---|
| app/services/crud.py:74-78 | `set_feed_labels` inserts each lower-cased label as it comes, so a label repeated after lower-casing breaks `PRIMARY KEY (feed_id, label)`. Then `update_labels` fails. In `add_feed`, the feed row is already committed, but the page reports "Failed to add feed". | the labels form "tech,Tech" (or "tech,tech"), which app/routers/pages.py:320 turns into `["tech", "tech"]` | the feed's labels become the set {"tech"}, as for any replace-all | not executed | Crud.SetLabelsAsWrittenRejectsTechTech | Crud.SetFeedLabels |
| app/routers/pages.py:213-224 | `add_feed` calls `create_feed`, which commits the feed row before setting its labels; when the labels then fail, the handler answers "Failed to add feed" although the feed was added (without labels and never refreshed). | the labels form "tech,Tech" for a URL the user does not have | either the feed is added with the labels {"tech"}, or nothing is added | not executed | Pages.AddFeedAsWrittenKeepsFeedOnTechTech | Pages.AddFeedForm |
