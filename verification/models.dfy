/** The records of both pipelines. */
module Models {
  import opened Common

  /** A configured feed of the strict pipeline. */
  datatype RssFeedSource = RssFeedSource(name: string, url: string)

  /** An item of the strict pipeline: the date is kept as the feed wrote it. */
  datatype RssItem = RssItem(
    title: string,
    description: Option<string>,
    link: string,
    pubDate: Option<string>,
    source: string)

  /** An item of the lenient pipeline: the date is a timestamp in
      milliseconds since the epoch. */
  datatype NewsItem = NewsItem(
    title: string,
    description: string,
    link: string,
    pubDate: int,
    source: string)
}
