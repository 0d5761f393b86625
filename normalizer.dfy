/** The pure half of the feed service: the accept rule for a parsed document
    and the normalisation of each parsed entry into an article record. */
module Normalizer {
  import opened Wrappers
  import opened Text
  import Config

  /** Characters of an entry summary kept in its record. */
  const SummaryLength: nat := 500

  /** A broken-down time as the feed parser reports it (`time.struct_time`). */
  datatype TimeStruct = TimeStruct(
    year: int, month: int, day: int, hour: int, minute: int, second: int,
    weekday: int, yearDay: int, isDst: int)

  /** One content block of an entry; `value` is None when the block has no value. */
  datatype ContentBlock = ContentBlock(value: Option<string>)

  /** A parsed entry, the same for RSS and Atom: each optional field is None
      when the parser did not produce it; `content` is empty when absent. */
  datatype RawEntry = RawEntry(
    id: Option<string>,
    title: Option<string>,
    link: Option<string>,
    content: seq<ContentBlock>,
    summary: Option<string>,
    published: Option<TimeStruct>,
    updated: Option<TimeStruct>,
    created: Option<TimeStruct>)

  /** What the feed parser makes of a document: the bozo flag (malformed
      document) and its exception text, the feed title, and the entries. */
  datatype ParsedDocument = ParsedDocument(
    bozo: bool, bozoException: string, title: Option<string>, entries: seq<RawEntry>)

  /** The outcome of fetching a feed URL: the parsed document, or the HTTP
      status error, or the transport failure. */
  datatype FetchOutcome =
    | Fetched(doc: ParsedDocument)
    | HttpStatusError(code: int)
    | RequestError(detail: string)

  /** The two platform calls the normaliser makes: `hash(str(entry))`, and
      `datetime.fromtimestamp(mktime(t))` as seconds, None where it raises
      ValueError or OverflowError. */
  datatype Platform = Platform(hashOf: RawEntry -> int, toSeconds: TimeStruct -> Option<int>)

  datatype FeedError = FetchError(message: string) | ParseError(message: string)

  /** The normalised form of one entry, ready to insert as an article. */
  datatype Record = Record(
    guid: string,
    title: Option<string>,
    link: Option<string>,
    content: Option<string>,
    summary: Option<string>,
    publishedAt: Option<int>)

  datatype FetchedFeed = FetchedFeed(title: string, records: seq<Record>)

  /** Python truthiness of an optional string: present and non-empty. */
  predicate Filled(o: Option<string>) {
    o.Some? && o.value != []
  }

  /** The time fields `parse_datetime` tries, in its order. */
  function TimeFields(e: RawEntry): seq<Option<TimeStruct>> {
    [e.published, e.updated, e.created]
  }

  predicate Converts(f: Option<TimeStruct>, toSeconds: TimeStruct -> Option<int>) {
    f.Some? && toSeconds(f.value).Some?
  }

  /** The loop of `parse_datetime`: the first field that is present and
      converts wins; a missing field or a failed conversion moves on. */
  function FirstConverted(fields: seq<Option<TimeStruct>>, toSeconds: TimeStruct -> Option<int>): (r: Option<int>)
    ensures r.None? <==> forall i | 0 <= i < |fields| :: !Converts(fields[i], toSeconds)
    ensures r.Some? ==> exists i | 0 <= i < |fields| ::
      Converts(fields[i], toSeconds) && r == toSeconds(fields[i].value) &&
      forall j | 0 <= j < i :: !Converts(fields[j], toSeconds)
  {
    if fields == [] then None
    else if Converts(fields[0], toSeconds) then toSeconds(fields[0].value)
    else
      var r := FirstConverted(fields[1..], toSeconds);
      assert forall i | 1 <= i < |fields| :: fields[i] == fields[1..][i - 1];
      r
  }

  /** `parse_datetime`: published, then updated, then created; None when no
      field converts. */
  function ParseDatetime(e: RawEntry, toSeconds: TimeStruct -> Option<int>): (r: Option<int>)
    ensures Converts(e.published, toSeconds) ==> r == toSeconds(e.published.value)
    ensures !Converts(e.published, toSeconds) && Converts(e.updated, toSeconds) ==>
      r == toSeconds(e.updated.value)
    ensures !Converts(e.published, toSeconds) && !Converts(e.updated, toSeconds) ==>
      r == if Converts(e.created, toSeconds) then toSeconds(e.created.value) else None
  {
    var fields := TimeFields(e);
    var r := FirstConverted(fields, toSeconds);
    assert fields[0] == e.published && fields[1] == e.updated && fields[2] == e.created;
    r
  }

  /** The value of the first content block, "" when there is none. */
  function FirstContentValue(e: RawEntry): string {
    if e.content == [] then [] else e.content[0].value.GetOr([])
  }

  /** `r` is `src` cut to its first `n` characters. */
  predicate IsCutOf(r: string, src: string, n: nat) {
    |r| == (if |src| <= n then |src| else n) && r == src[..|r|]
  }

  /** `get_content`: the first content block's value if non-empty, otherwise
      the summary if non-empty, cut to the configured maximum; None when both
      are empty. */
  function GetContent(e: RawEntry): (r: Option<string>)
    ensures r.Some? ==> 1 <= |r.value| <= Config.MaxArticleContentLength
    ensures FirstContentValue(e) != [] ==>
      r.Some? && IsCutOf(r.value, FirstContentValue(e), Config.MaxArticleContentLength)
    ensures FirstContentValue(e) == [] && Filled(e.summary) ==>
      r.Some? && IsCutOf(r.value, e.summary.value, Config.MaxArticleContentLength)
    ensures r.None? <==> FirstContentValue(e) == [] && !Filled(e.summary)
  {
    var content := FirstContentValue(e);
    if content != [] then Some(Take(content, Config.MaxArticleContentLength))
    else if Filled(e.summary) then Some(Take(e.summary.value, Config.MaxArticleContentLength))
    else None
  }

  /** `get_guid`: the id, else the link, else the title (the first that is
      non-empty), else the decimal text of the entry's hash; never empty. */
  function GetGuid(e: RawEntry, hashOf: RawEntry -> int): (r: string)
    ensures r != []
    ensures Filled(e.id) ==> r == e.id.value
    ensures !Filled(e.id) && Filled(e.link) ==> r == e.link.value
    ensures !Filled(e.id) && !Filled(e.link) && Filled(e.title) ==> r == e.title.value
    ensures !Filled(e.id) && !Filled(e.link) && !Filled(e.title) ==> r == IntToDecimal(hashOf(e))
  {
    if Filled(e.id) then e.id.value
    else if Filled(e.link) then e.link.value
    else if Filled(e.title) then e.title.value
    else IntToDecimal(hashOf(e))
  }

  /** The summary of a record: the first 500 characters of a non-empty entry
      summary, otherwise None. */
  function RecordSummary(e: RawEntry): (r: Option<string>)
    ensures r.Some? <==> Filled(e.summary)
    ensures r.Some? ==> 1 <= |r.value| <= SummaryLength && IsCutOf(r.value, e.summary.value, SummaryLength)
  {
    if Filled(e.summary) then Some(Take(e.summary.value, SummaryLength)) else None
  }

  /** One record of `fetch_and_parse_feed`: the entry's guid, content,
      summary and publication time as the helpers above derive them, and its
      title and link as they are. */
  function BuildRecord(e: RawEntry, p: Platform): (r: Record)
    ensures r.guid == GetGuid(e, p.hashOf) && r.guid != []
    ensures r.title == e.title && r.link == e.link
    ensures r.content == GetContent(e) && r.summary == RecordSummary(e)
    ensures r.publishedAt == ParseDatetime(e, p.toSeconds)
    ensures r.content.Some? ==> |r.content.value| <= Config.MaxArticleContentLength
    ensures r.summary.Some? ==> |r.summary.value| <= SummaryLength
  {
    Record(GetGuid(e, p.hashOf), e.title, e.link, GetContent(e), RecordSummary(e),
           ParseDatetime(e, p.toSeconds))
  }

  /** `parse_feed`'s accept rule: a malformed document is refused only when it
      yields no entries at all. */
  function ParseFeed(doc: ParsedDocument): (r: Result<ParsedDocument, FeedError>)
    ensures r.Failure? <==> doc.bozo && doc.entries == []
    ensures r.Success? ==> r.value == doc
    ensures r.Failure? ==> r.error.ParseError?
  {
    if doc.bozo && doc.entries == [] then Failure(ParseError("Feed parsing error: " + doc.bozoException))
    else Success(doc)
  }

  /** `fetch_and_parse_feed` given the fetch outcome for `url`: the fetch
      errors, then the parse rule; on success one record per entry, in entry
      order, and the document's title or else the URL. */
  function FetchAndParse(url: string, outcome: FetchOutcome, p: Platform): (r: Result<FetchedFeed, FeedError>)
    ensures outcome.HttpStatusError? ==>
      r == Failure(FetchError("HTTP error " + IntToDecimal(outcome.code) + ": " + url))
    ensures outcome.RequestError? ==> r == Failure(FetchError("Request failed: " + outcome.detail))
    ensures outcome.Fetched? ==> (r.Failure? <==> outcome.doc.bozo && outcome.doc.entries == [])
    ensures r.Failure? && outcome.Fetched? ==> r.error.ParseError?
    ensures r.Success? ==> outcome.Fetched? && r.value.title == outcome.doc.title.GetOr(url)
    ensures r.Success? ==> |r.value.records| == |outcome.doc.entries|
    ensures r.Success? ==> forall i | 0 <= i < |r.value.records| ::
      r.value.records[i] == BuildRecord(outcome.doc.entries[i], p)
  {
    match outcome
    case HttpStatusError(code) => Failure(FetchError("HTTP error " + IntToDecimal(code) + ": " + url))
    case RequestError(detail) => Failure(FetchError("Request failed: " + detail))
    case Fetched(doc) =>
      match ParseFeed(doc)
      case Failure(e) => Failure(e)
      case Success(feed) =>
        var records := seq(|feed.entries|, i requires 0 <= i < |feed.entries| => BuildRecord(feed.entries[i], p));
        Success(FetchedFeed(feed.title.GetOr(url), records))
  }

  /** The guid precedence on the three shapes of entry the tests use. */
  lemma GuidPrecedenceExamples(p: Platform)
    ensures GetGuid(RawEntry(Some("a"), Some("c"), Some("b"), [], None, None, None, None), p.hashOf) == "a"
    ensures GetGuid(RawEntry(None, Some("c"), Some("b"), [], None, None, None, None), p.hashOf) == "b"
    ensures GetGuid(RawEntry(None, Some("c"), None, [], None, None, None, None), p.hashOf) == "c"
  {
  }

  /** A 100000-character content block is kept as its first 50000 characters. */
  lemma LongContentIsCut()
    ensures var e := RawEntry(None, None, None, [ContentBlock(Some(seq(100000, _ => 'x')))], None, None, None, None);
      GetContent(e) == Some(seq(50000, _ => 'x'))
  {
    var e := RawEntry(None, None, None, [ContentBlock(Some(seq(100000, _ => 'x')))], None, None, None, None);
    assert FirstContentValue(e) == seq(100000, _ => 'x');
    assert seq(100000, _ => 'x')[..50000] == seq(50000, _ => 'x');
  }
}
