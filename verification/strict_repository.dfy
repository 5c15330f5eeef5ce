/**
 * The repository of the strict pipeline (`data/NewsRepository.kt`): three
 * registered feeds are requested one after another with the app's
 * User-Agent, unsuccessful or empty responses are skipped, each body is
 * parsed with the strict parser, and the collected items are de-duplicated
 * by link.
 *
 * The HTTP client is a parameter: it maps a request to the response the
 * server gave, or to `CallFailed` when the call threw.
 */
module StrictRepository {
  import opened Common
  import opened Xml
  import opened Models
  import StrictParser
  import Distinct

  /** The registered feeds, in the order they are fetched. */
  const Sources: seq<RssFeedSource> := [
    RssFeedSource("IGN", "https://www.ign.com/articles?format=rss"),
    RssFeedSource("Eurogamer", "https://www.eurogamer.net/feed"),
    RssFeedSource("GameSpot", "https://www.gamespot.com/feeds/mashup/")
  ]

  const UserAgent: string := "AuryxGameNews/1.207.01"

  /** The request for one feed: its URL and the app's User-Agent header. */
  datatype Request = Request(url: string, userAgent: string)

  /** What the call produced: an exception, or a status code and an
      optional body. */
  datatype Response = CallFailed | Answered(code: int, body: Option<Payload>)

  type Http = Request -> Response

  /** The exception that escapes `fetchAll`, with the feed it came from. */
  datatype FetchError = NetworkError(source: string) | ParseError(source: string)

  /** `getSources()`: the registry, IGN then Eurogamer then GameSpot. */
  function GetSources(): (r: seq<RssFeedSource>)
    ensures |r| == 3
    ensures r[0].name == "IGN" && r[1].name == "Eurogamer" && r[2].name == "GameSpot"
    ensures forall i, j :: 0 <= i < j < |r| ==> r[i].name != r[j].name && r[i].url != r[j].url
  {
    Sources
  }

  /** OkHttp's `isSuccessful`: a 2xx status. */
  predicate IsSuccessful(code: int) {
    200 <= code < 300
  }

  /** What one feed adds to the list: nothing when the response is not
      successful or has no body, the parsed items otherwise; a failed call
      or a body that does not parse is an error. */
  function FromResponse(s: RssFeedSource, resp: Response): (r: Result<seq<RssItem>, FetchError>)
    ensures r == Err(NetworkError(s.name)) <==> resp.CallFailed?
    ensures resp.Answered? && (!IsSuccessful(resp.code) || resp.body.None?) ==> r == Ok([])
    ensures r.Ok? ==> forall i :: 0 <= i < |r.value| ==> StrictParser.WellFormed(r.value[i], s.name)
    ensures resp.Answered? && IsSuccessful(resp.code) && resp.body == Some(Malformed) ==> r == Err(ParseError(s.name))
    ensures resp.Answered? && IsSuccessful(resp.code) && resp.body.Some? && resp.body.value.Document? ==>
              var parsed := StrictParser.Parse(s.name, resp.body.value.events);
              r == (if parsed.Ok? then Ok(parsed.value) else Err(ParseError(s.name)))
  {
    match resp
    case CallFailed => Err(NetworkError(s.name))
    case Answered(code, body) =>
      if !IsSuccessful(code) then Ok([])
      else
        match body
        case None => Ok([])
        case Some(Malformed) => Err(ParseError(s.name))
        case Some(Document(evs)) =>
          match StrictParser.Parse(s.name, evs)
          case Ok(items) => Ok(items)
          case Err(_) => Err(ParseError(s.name))
  }

  /** Every item of `xs` is well formed and comes from one of `sources`. */
  predicate FromSources(xs: seq<RssItem>, sources: seq<RssFeedSource>) {
    forall i :: 0 <= i < |xs| ==> exists k :: 0 <= k < |sources| && StrictParser.WellFormed(xs[i], sources[k].name)
  }

  /** The `for (s in sources)` loop: the items of every feed, in feed order,
      or the first error. */
  function Collect(sources: seq<RssFeedSource>, http: Http): (r: Result<seq<RssItem>, FetchError>)
    ensures r.Ok? ==> FromSources(r.value, sources)
    decreases |sources|
  {
    if |sources| == 0 then Ok([])
    else
      match FromResponse(sources[0], http(Request(sources[0].url, UserAgent)))
      case Err(e) => Err(e)
      case Ok(items) =>
        match Collect(sources[1..], http)
        case Err(e) => Err(e)
        case Ok(more) =>
          assert FromSources(items + more, sources) by {
            forall i | 0 <= i < |items + more|
              ensures exists k :: 0 <= k < |sources| && StrictParser.WellFormed((items + more)[i], sources[k].name)
            {
              if i < |items| {
                assert StrictParser.WellFormed((items + more)[i], sources[0].name);
              } else {
                assert (items + more)[i] == more[i - |items|];
                var k :| 0 <= k < |sources| - 1 && StrictParser.WellFormed(more[i - |items|], sources[1..][k].name);
                assert StrictParser.WellFormed((items + more)[i], sources[k + 1].name);
              }
            }
          }
          Ok(items + more)
  }

  /** `fetchAll()`: the collected items with duplicate links removed. */
  function FetchAll(http: Http): (r: Result<seq<RssItem>, FetchError>)
    ensures r.Ok? ==> Distinct.LinksDistinct(r.value)
    ensures r.Ok? <==> Collect(Sources, http).Ok?
  {
    match Collect(Sources, http)
    case Err(e) => Err(e)
    case Ok(all) => Ok(Distinct.DistinctByLink(all))
  }

  /** The items one feed contributes when it does not fail. */
  function Contribution(s: RssFeedSource, http: Http): seq<RssItem> {
    match FromResponse(s, http(Request(s.url, UserAgent)))
    case Ok(items) => items
    case Err(_) => []
  }

  /** All feeds' items, in feed order. */
  function Contributions(sources: seq<RssFeedSource>, http: Http): seq<RssItem>
    decreases |sources|
  {
    if |sources| == 0 then [] else Contribution(sources[0], http) + Contributions(sources[1..], http)
  }

  /** A feed that fails before any earlier one has failed decides the
      outcome: the loop stops there and its error escapes. */
  lemma {:induction false} FirstErrorEscapes(sources: seq<RssFeedSource>, http: Http, k: nat)
    requires k < |sources|
    requires FromResponse(sources[k], http(Request(sources[k].url, UserAgent))).Err?
    requires forall j :: 0 <= j < k ==> FromResponse(sources[j], http(Request(sources[j].url, UserAgent))).Ok?
    ensures Collect(sources, http) == Err(FromResponse(sources[k], http(Request(sources[k].url, UserAgent))).error)
    decreases k
  {
    if k > 0 {
      assert forall j :: 0 <= j < k - 1 ==> sources[1..][j] == sources[j + 1];
      FirstErrorEscapes(sources[1..], http, k - 1);
    }
  }

  /** When no feed fails, the loop yields every feed's items in order. */
  lemma {:induction false} CollectWithoutErrors(sources: seq<RssFeedSource>, http: Http)
    requires forall j :: 0 <= j < |sources| ==> FromResponse(sources[j], http(Request(sources[j].url, UserAgent))).Ok?
    ensures Collect(sources, http) == Ok(Contributions(sources, http))
    decreases |sources|
  {
    if |sources| > 0 {
      assert forall j :: 0 <= j < |sources| - 1 ==> sources[1..][j] == sources[j + 1];
      CollectWithoutErrors(sources[1..], http);
    }
  }

  /** Without errors, `fetchAll` keeps the first item of every link found
      in any feed, in feed order, and nothing else. */
  lemma FetchAllWithoutErrors(http: Http)
    requires forall j :: 0 <= j < |Sources| ==> FromResponse(Sources[j], http(Request(Sources[j].url, UserAgent))).Ok?
    ensures FetchAll(http) == Ok(Distinct.FirstOccurrences(Contributions(Sources, http)))
    ensures Distinct.Links(FetchAll(http).value) == Distinct.Links(Contributions(Sources, http))
    ensures forall i :: 0 <= i < |FetchAll(http).value| ==> FetchAll(http).value[i] in Contributions(Sources, http)
  {
    CollectWithoutErrors(Sources, http);
    Distinct.DistinctIsFirstOccurrences(Contributions(Sources, http));
    Distinct.DistinctByLinkContents(Contributions(Sources, http));
  }

  /** When every server answers with an error status, or with no body,
      `fetchAll` succeeds with no items. */
  lemma {:induction false} NothingUsable(sources: seq<RssFeedSource>, http: Http)
    requires forall j :: 0 <= j < |sources| ==>
               var resp := http(Request(sources[j].url, UserAgent));
               resp.Answered? && (!IsSuccessful(resp.code) || resp.body.None?)
    ensures Collect(sources, http) == Ok([])
    decreases |sources|
  {
    if |sources| > 0 {
      assert forall j :: 0 <= j < |sources| - 1 ==> sources[1..][j] == sources[j + 1];
      NothingUsable(sources[1..], http);
      var none: seq<RssItem> := [];
      assert FromResponse(sources[0], http(Request(sources[0].url, UserAgent))) == Ok(none);
      assert none + none == none;
    }
  }
}
