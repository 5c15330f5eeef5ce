/**
 * The repository of the lenient pipeline (`data/repository/NewsRepository.kt`):
 * three feeds are fetched in order inside one `runCatching`; a status
 * outside 200..299, a connection failure or unparsable XML ends the whole
 * fetch with a failure, otherwise every feed's items are appended and the
 * list is sorted newest first.
 *
 * The network is a parameter mapping a URL to what the connection yielded.
 */
module LenientRepository {
  import opened Common
  import opened Xml
  import opened Models
  import LenientParser
  import DateSort

  /** A feed: its URL and the source name given to its items. */
  datatype Feed = Feed(url: string, source: string)

  /** The feeds, in the order they are fetched. */
  const Feeds: seq<Feed> := [
    Feed("https://feeds.feedburner.com/ign/all", "IGN"),
    Feed("https://www.eurogamer.net/feed", "Eurogamer"),
    Feed("https://www.gamespot.com/feeds/news/", "GameSpot")
  ]

  /** What opening a connection yielded: an I/O failure, or a status code
      and the document the body holds. */
  datatype Connection = Unreachable | Responded(code: int, payload: Payload)

  type Network = string -> Connection

  /** The exception `runCatching` captures.  `HttpStatus(code, source)` is
      the `IllegalStateException` whose message is "HTTP <code> for <source>". */
  datatype FeedFailure = HttpStatus(code: int, source: string) | IoFailure(url: string) | BadXml(source: string)

  /** The accepted range of status codes, `200..299`. */
  predicate IsOk(code: int) {
    200 <= code <= 299
  }

  /** One iteration of the loop: the feed's items, or the exception that
      ends the fetch. */
  function LoadFeed(f: Feed, net: Network, conv: LenientParser.Converters): (r: Result<seq<NewsItem>, FeedFailure>)
    ensures (r.Err? && r.error.HttpStatus?) <==> net(f.url).Responded? && !IsOk(net(f.url).code)
    ensures r.Err? && r.error.HttpStatus? ==> r.error == HttpStatus(net(f.url).code, f.source)
    ensures r == Err(IoFailure(f.url)) <==> net(f.url).Unreachable?
    ensures r.Ok? ==> forall i :: 0 <= i < |r.value| ==> r.value[i].source == f.source
    ensures net(f.url).Responded? && IsOk(net(f.url).code) && net(f.url).payload.Malformed? ==>
              r == Err(BadXml(f.source))
    ensures net(f.url).Responded? && IsOk(net(f.url).code) && net(f.url).payload.Document? ==>
              r == Ok(LenientParser.Parse(net(f.url).payload.events, f.source, conv))
  {
    match net(f.url)
    case Unreachable => Err(IoFailure(f.url))
    case Responded(code, payload) =>
      if !IsOk(code) then Err(HttpStatus(code, f.source))
      else
        match payload
        case Malformed => Err(BadXml(f.source))
        case Document(evs) => Ok(LenientParser.Parse(evs, f.source, conv))
  }

  /** The loop: every feed's items appended in feed order, or the first
      failure. */
  function Gather(feeds: seq<Feed>, net: Network, conv: LenientParser.Converters): (r: Result<seq<NewsItem>, FeedFailure>)
    ensures r.Ok? ==> forall i :: 0 <= i < |feeds| ==> LoadFeed(feeds[i], net, conv).Ok?
    decreases |feeds|
  {
    if |feeds| == 0 then Ok([])
    else
      match LoadFeed(feeds[0], net, conv)
      case Err(e) => Err(e)
      case Ok(items) =>
        match Gather(feeds[1..], net, conv)
        case Err(e) => Err(e)
        case Ok(more) =>
          assert forall i :: 1 <= i < |feeds| ==> feeds[i] == feeds[1..][i - 1];
          Ok(items + more)
  }

  /** `fetchNews()`: the gathered items, newest first. */
  function FetchNews(net: Network, conv: LenientParser.Converters): (r: Result<seq<NewsItem>, FeedFailure>)
    ensures r.Ok? ==> DateSort.SortedDesc(r.value)
    ensures r.Ok? <==> Gather(Feeds, net, conv).Ok?
    ensures r.Ok? ==> multiset(r.value) == multiset(Gather(Feeds, net, conv).value)
  {
    match Gather(Feeds, net, conv)
    case Err(e) => Err(e)
    case Ok(all) => Ok(DateSort.SortByDateDesc(all))
  }

  /** The items every feed yields, in feed order. */
  function Loaded(feeds: seq<Feed>, net: Network, conv: LenientParser.Converters): seq<NewsItem>
    decreases |feeds|
  {
    if |feeds| == 0 then []
    else
      (match LoadFeed(feeds[0], net, conv) case Ok(items) => items case Err(_) => [])
      + Loaded(feeds[1..], net, conv)
  }

  /** The first feed that fails decides the failure: the loop stops there
      and the fetch reports that exception. */
  lemma {:induction false} FirstFailureReported(feeds: seq<Feed>, net: Network, conv: LenientParser.Converters, k: nat)
    requires k < |feeds|
    requires LoadFeed(feeds[k], net, conv).Err?
    requires forall j :: 0 <= j < k ==> LoadFeed(feeds[j], net, conv).Ok?
    ensures Gather(feeds, net, conv) == Err(LoadFeed(feeds[k], net, conv).error)
    decreases k
  {
    if k > 0 {
      assert forall j :: 0 <= j < k - 1 ==> feeds[1..][j] == feeds[j + 1];
      FirstFailureReported(feeds[1..], net, conv, k - 1);
    }
  }

  /** When no feed fails, the loop yields every feed's items in order. */
  lemma {:induction false} GatherWithoutFailures(feeds: seq<Feed>, net: Network, conv: LenientParser.Converters)
    requires forall j :: 0 <= j < |feeds| ==> LoadFeed(feeds[j], net, conv).Ok?
    ensures Gather(feeds, net, conv) == Ok(Loaded(feeds, net, conv))
    decreases |feeds|
  {
    if |feeds| > 0 {
      assert forall j :: 0 <= j < |feeds| - 1 ==> feeds[1..][j] == feeds[j + 1];
      GatherWithoutFailures(feeds[1..], net, conv);
    }
  }

  /** A successful fetch holds exactly the items of all feeds, newest first,
      with items of the same instant in feed and document order. */
  lemma FetchNewsWithoutFailures(net: Network, conv: LenientParser.Converters)
    requires forall j :: 0 <= j < |Feeds| ==> LoadFeed(Feeds[j], net, conv).Ok?
    ensures FetchNews(net, conv).Ok?
    ensures multiset(FetchNews(net, conv).value) == multiset(Loaded(Feeds, net, conv))
    ensures |FetchNews(net, conv).value| == |Loaded(Feeds, net, conv)|
    ensures forall d :: DateSort.WithDate(FetchNews(net, conv).value, d) == DateSort.WithDate(Loaded(Feeds, net, conv), d)
  {
    GatherWithoutFailures(Feeds, net, conv);
    forall d ensures DateSort.WithDate(FetchNews(net, conv).value, d) == DateSort.WithDate(Loaded(Feeds, net, conv), d) {
      DateSort.SortIsStable(Loaded(Feeds, net, conv), d);
    }
  }

  /** A status outside 200..299 from the first feed fails the fetch with
      that status and the feed's source name. */
  lemma FirstFeedStatus(net: Network, conv: LenientParser.Converters)
    requires net(Feeds[0].url).Responded? && !IsOk(net(Feeds[0].url).code)
    ensures FetchNews(net, conv) == Err(HttpStatus(net(Feeds[0].url).code, "IGN"))
  {
    FirstFailureReported(Feeds, net, conv, 0);
  }
}
