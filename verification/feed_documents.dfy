/**
 * Well-formed RSS 2.0 and Atom documents, as the event streams a pull parser
 * reports for them, and what each parser makes of them.  An `Entry` holds
 * the raw text of an item's fields; the RSS rendering writes it as an
 * `<item>` with `<title>`, `<link>`, `<description>` and `<pubDate>`
 * children, the Atom rendering as an `<entry>` with `<title>`,
 * `<link href=…/>`, `<summary>` and `<updated>` children.
 */
module FeedDocuments {
  import opened Common
  import opened Text
  import opened HtmlText
  import opened Xml
  import opened Models
  import Dates
  import StrictParser
  import LenientParser

  /** The fields of one feed entry, as written in the document. */
  datatype Entry = Entry(title: string, link: string, description: Option<string>, pubDate: Option<string>)

  /** An element that is written only when the value is present. */
  function Optional(name: string, v: Option<string>): seq<Event> {
    match v
    case None => []
    case Some(t) => Element(name, t)
  }

  /** The tag names a document is written with.  Atom documents have no
      channel element; their `channel` name is unused. */
  datatype Vocabulary = Vocabulary(
    root: string, channel: string, item: string,
    title: string, link: string, description: string, date: string)

  const RssTags: Vocabulary := Vocabulary("rss", "channel", "item", "title", "link", "description", "pubDate")
  const AtomTags: Vocabulary := Vocabulary("feed", "", "entry", "title", "link", "summary", "updated")

  /** An RSS `<item>` followed by the events `rest`. */
  function RssItemThen(v: Vocabulary, e: Entry, rest: seq<Event>): seq<Event> {
    [Start(v.item, None)] + (Element(v.title, e.title) + (Element(v.link, e.link)
      + (Optional(v.description, e.description) + (Optional(v.date, e.pubDate) + ([End(v.item)] + rest)))))
  }

  /** The items of `es` in order, followed by the events `rest`. */
  function RssItemsThen(v: Vocabulary, es: seq<Entry>, rest: seq<Event>): seq<Event>
    decreases |es|
  {
    if |es| == 0 then rest else RssItemThen(v, es[0], RssItemsThen(v, es[1..], rest))
  }

  /** `<rss><channel><title>…</title>` items `</channel></rss>`. */
  function RssDocument(v: Vocabulary, channelTitle: string, es: seq<Entry>): seq<Event> {
    [Start(v.root, None), Start(v.channel, None)]
      + (Element(v.title, channelTitle) + RssItemsThen(v, es, [End(v.channel), End(v.root)]))
  }

  /** An Atom `<entry>` followed by the events `rest`; the link is an
      empty element with an `href` attribute. */
  function AtomEntryThen(v: Vocabulary, e: Entry, rest: seq<Event>): seq<Event> {
    [Start(v.item, None)] + (Element(v.title, e.title) + ([Start(v.link, Some(e.link)), End(v.link)]
      + (Optional(v.description, e.description) + (Optional(v.date, e.pubDate) + ([End(v.item)] + rest)))))
  }

  function AtomEntriesThen(v: Vocabulary, es: seq<Entry>, rest: seq<Event>): seq<Event>
    decreases |es|
  {
    if |es| == 0 then rest else AtomEntryThen(v, es[0], AtomEntriesThen(v, es[1..], rest))
  }

  /** `<feed><title>…</title>` entries `</feed>`. */
  function AtomDocument(v: Vocabulary, feedTitle: string, es: seq<Entry>): seq<Event> {
    [Start(v.root, None)] + (Element(v.title, feedTitle) + AtomEntriesThen(v, es, [End(v.root)]))
  }

  // ---------------------------------------------------------------------
  // Tag names as the parsers see them

  predicate NoUpper(s: string) {
    forall i :: 0 <= i < |s| ==> !('A' <= s[i] <= 'Z')
  }

  lemma LowerKeeps(s: string)
    requires NoUpper(s)
    ensures Lower(s) == s
  {
  }

  lemma NoUpperDescription() ensures NoUpper("description") { }
  lemma NoUpperSummary() ensures NoUpper("summary") { }
  lemma NoUpperUpdated() ensures NoUpper("updated") { }
  lemma NoUpperChannel() ensures NoUpper("channel") { }

  lemma LowerRss() ensures Lower("rss") == "rss" { LowerKeeps("rss"); }
  lemma LowerFeed() ensures Lower("feed") == "feed" { LowerKeeps("feed"); }
  lemma LowerItem() ensures Lower("item") == "item" { LowerKeeps("item"); }
  lemma LowerEntry() ensures Lower("entry") == "entry" { LowerKeeps("entry"); }
  lemma LowerTitle() ensures Lower("title") == "title" { LowerKeeps("title"); }
  lemma LowerLink() ensures Lower("link") == "link" { LowerKeeps("link"); }
  lemma LowerPubDate() ensures Lower("pubDate") == "pubdate" { }
  lemma LowerChannel() ensures Lower("channel") == "channel" {
    NoUpperChannel();
    LowerKeeps("channel");
  }
  lemma LowerDescription() ensures Lower("description") == "description" {
    NoUpperDescription();
    LowerKeeps("description");
  }
  lemma LowerSummary() ensures Lower("summary") == "summary" {
    NoUpperSummary();
    LowerKeeps("summary");
  }
  lemma LowerUpdated() ensures Lower("updated") == "updated" {
    NoUpperUpdated();
    LowerKeeps("updated");
  }

  /** The strict parser classifies each name of `v` as its role. */
  predicate StrictVocabulary(v: Vocabulary) {
    && StrictParser.Classify(v.root) == StrictParser.OtherTag
    && StrictParser.Classify(v.channel) == StrictParser.OtherTag
    && StrictParser.Classify(v.item) == StrictParser.ItemTag
    && StrictParser.Classify(v.title) == StrictParser.TitleTag
    && StrictParser.Classify(v.link) == StrictParser.LinkTag
    && StrictParser.Classify(v.description) == StrictParser.DescriptionTag
    && StrictParser.Classify(v.date) == StrictParser.DateTag
  }

  lemma ClassifyTitle() ensures StrictParser.Classify("title") == StrictParser.TitleTag { LowerKeeps("title"); }
  lemma ClassifyLink() ensures StrictParser.Classify("link") == StrictParser.LinkTag { LowerKeeps("link"); }
  lemma ClassifyRss() ensures StrictParser.Classify("rss") == StrictParser.OtherTag { LowerKeeps("rss"); }
  lemma ClassifyItem() ensures StrictParser.Classify("item") == StrictParser.ItemTag { LowerKeeps("item"); }
  lemma ClassifyFeed() ensures StrictParser.Classify("feed") == StrictParser.OtherTag { LowerKeeps("feed"); }
  lemma ClassifyEntry() ensures StrictParser.Classify("entry") == StrictParser.ItemTag { LowerKeeps("entry"); }
  lemma ClassifyEmpty() ensures StrictParser.Classify("") == StrictParser.OtherTag { }
  lemma ClassifyPubDate() ensures StrictParser.Classify("pubDate") == StrictParser.DateTag {
    assert Lower("pubDate") == "pubdate";
  }
  lemma ClassifyChannel() ensures StrictParser.Classify("channel") == StrictParser.OtherTag {
    NoUpperChannel();
    LowerKeeps("channel");
  }
  lemma ClassifyDescription() ensures StrictParser.Classify("description") == StrictParser.DescriptionTag {
    NoUpperDescription();
    LowerKeeps("description");
  }
  lemma ClassifySummary() ensures StrictParser.Classify("summary") == StrictParser.DescriptionTag {
    NoUpperSummary();
    LowerKeeps("summary");
  }
  lemma ClassifyUpdated() ensures StrictParser.Classify("updated") == StrictParser.DateTag {
    NoUpperUpdated();
    LowerKeeps("updated");
  }

  lemma RssIsStrictVocabulary()
    ensures StrictVocabulary(RssTags)
  {
    ClassifyRss(); ClassifyChannel(); ClassifyItem(); ClassifyTitle();
    ClassifyLink(); ClassifyDescription(); ClassifyPubDate();
  }

  lemma AtomIsStrictVocabulary()
    ensures StrictVocabulary(AtomTags)
  {
    ClassifyFeed(); ClassifyEmpty(); ClassifyEntry(); ClassifyTitle();
    ClassifyLink(); ClassifySummary(); ClassifyUpdated();
  }

  // ---------------------------------------------------------------------
  // The strict parser

  /** The scratch state after an entry's fields have been read. */
  function Captured(e: Entry): StrictParser.Scratch {
    StrictParser.Scratch(true, Some(e.title), e.description, Some(e.link), e.pubDate)
  }

  /** What the strict parser emits for `es`, entry by entry. */
  function StrictItems(source: string, es: seq<Entry>): (r: seq<RssItem>)
    ensures |r| <= |es|
    decreases |es|
  {
    if |es| == 0 then [] else StrictParser.Emit(source, Captured(es[0])) + StrictItems(source, es[1..])
  }

  lemma StrictOptional(source: string, name: string, v: Option<string>, rest: seq<Event>,
                       sc: StrictParser.Scratch, acc: seq<RssItem>)
    requires sc.inside && StrictParser.IsField(StrictParser.Classify(name))
    ensures StrictParser.Run(source, Optional(name, v) + rest, sc, acc)
         == StrictParser.Run(source, rest,
              if v.Some? then StrictParser.Store(sc, StrictParser.Classify(name), v.value) else sc, acc)
  {
    if v.Some? {
      StrictParser.ElementStores(source, name, v.value, rest, sc, acc);
    } else {
      assert Optional(name, v) + rest == rest;
    }
  }

  /** The events `[End(n)] + rest`, for a name that is not an item's, are
      skipped. */
  lemma StrictSkipsEnd(source: string, n: string, rest: seq<Event>, sc: StrictParser.Scratch, acc: seq<RssItem>)
    requires StrictParser.Classify(n) != StrictParser.ItemTag
    ensures StrictParser.Run(source, [End(n)] + rest, sc, acc) == StrictParser.Run(source, rest, sc, acc)
  {
    assert ([End(n)] + rest)[1..] == rest;
    assert acc + [] == acc;
  }

  /** The fields of an entry, from the item's start tag on. */
  lemma StrictFields(source: string, v: Vocabulary, e: Entry, rest: seq<Event>, acc: seq<RssItem>)
    requires StrictVocabulary(v)
    ensures StrictParser.Run(source,
              Element(v.title, e.title) + (Element(v.link, e.link)
                + (Optional(v.description, e.description) + (Optional(v.date, e.pubDate) + rest))),
              StrictParser.Opened, acc)
         == StrictParser.Run(source, rest, Captured(e), acc)
  {
    var d := Optional(v.date, e.pubDate) + rest;
    var c := Optional(v.description, e.description) + d;
    var b := Element(v.link, e.link) + c;
    var s0 := StrictParser.Opened;
    StrictParser.ElementStores(source, v.title, e.title, b, s0, acc);
    var s1 := s0.(title := Some(e.title));
    StrictParser.ElementStores(source, v.link, e.link, c, s1, acc);
    var s2 := s1.(link := Some(e.link));
    StrictOptional(source, v.description, e.description, d, s2, acc);
    var s3 := s2.(description := e.description);
    StrictOptional(source, v.date, e.pubDate, rest, s3, acc);
    assert s3.(pubDate := e.pubDate) == Captured(e);
  }

  lemma StrictItemsCons(source: string, es: seq<Entry>, acc: seq<RssItem>)
    requires |es| > 0
    ensures acc + StrictParser.Emit(source, Captured(es[0])) + StrictItems(source, es[1..])
         == acc + StrictItems(source, es)
  {
    Associative(acc, StrictParser.Emit(source, Captured(es[0])), StrictItems(source, es[1..]));
  }

  lemma Associative<T>(a: seq<T>, b: seq<T>, c: seq<T>)
    ensures a + b + c == a + (b + c)
  {
  }

  lemma StrictRssTrailer(source: string, v: Vocabulary, sc: StrictParser.Scratch, acc: seq<RssItem>)
    requires StrictVocabulary(v)
    ensures StrictParser.Run(source, [End(v.channel), End(v.root)], sc, acc) == Ok(acc)
  {
    StrictSkipsEnd(source, v.channel, [End(v.root)], sc, acc);
    StrictSkipsEnd(source, v.root, [], sc, acc);
    assert [End(v.root)] + [] == [End(v.root)];
  }

  lemma StrictAtomTrailer(source: string, v: Vocabulary, sc: StrictParser.Scratch, acc: seq<RssItem>)
    requires StrictVocabulary(v)
    ensures StrictParser.Run(source, [End(v.root)], sc, acc) == Ok(acc)
  {
    StrictSkipsEnd(source, v.root, [], sc, acc);
    assert [End(v.root)] + [] == [End(v.root)];
  }

  lemma StrictRssItem(source: string, v: Vocabulary, e: Entry, rest: seq<Event>,
                      sc: StrictParser.Scratch, acc: seq<RssItem>)
    requires StrictVocabulary(v)
    ensures StrictParser.Run(source, RssItemThen(v, e, rest), sc, acc)
         == StrictParser.Run(source, rest, Captured(e).(inside := false), acc + StrictParser.Emit(source, Captured(e)))
  {
    var tail := [End(v.item)] + rest;
    var a := Element(v.title, e.title) + (Element(v.link, e.link)
      + (Optional(v.description, e.description) + (Optional(v.date, e.pubDate) + tail)));
    StrictParser.ItemStartResets(source, v.item, None, a, sc, acc);
    StrictFields(source, v, e, tail, acc);
    StrictParser.ItemEndEmits(source, v.item, rest, Captured(e), acc);
  }

  lemma {:induction false} StrictRssItems(source: string, v: Vocabulary, es: seq<Entry>,
                                          sc: StrictParser.Scratch, acc: seq<RssItem>)
    requires StrictVocabulary(v)
    ensures StrictParser.Run(source, RssItemsThen(v, es, [End(v.channel), End(v.root)]), sc, acc)
         == Ok(acc + StrictItems(source, es))
    decreases |es|
  {
    if |es| == 0 {
      StrictRssTrailer(source, v, sc, acc);
      assert acc + StrictItems(source, es) == acc;
    } else {
      var rest := RssItemsThen(v, es[1..], [End(v.channel), End(v.root)]);
      StrictRssItem(source, v, es[0], rest, sc, acc);
      StrictRssItems(source, v, es[1..], Captured(es[0]).(inside := false),
                     acc + StrictParser.Emit(source, Captured(es[0])));
      StrictItemsCons(source, es, acc);
    }
  }

  /** A start tag the strict parser has no use for is skipped. */
  lemma StrictSkipsStart(source: string, n: string, h: Option<string>, rest: seq<Event>,
                         sc: StrictParser.Scratch, acc: seq<RssItem>)
    requires StrictParser.Classify(n) == StrictParser.OtherTag
    ensures StrictParser.Run(source, [Start(n, h)] + rest, sc, acc) == StrictParser.Run(source, rest, sc, acc)
  {
    assert ([Start(n, h)] + rest)[1..] == rest;
    assert acc + [] == acc;
  }

  /** A title element outside any item is skipped. */
  lemma StrictSkipsOuterTitle(source: string, n: string, t: string, rest: seq<Event>)
    requires StrictParser.Classify(n) == StrictParser.TitleTag
    ensures StrictParser.Run(source, Element(n, t) + rest, StrictParser.Initial, [])
         == StrictParser.Run(source, rest, StrictParser.Initial, [])
  {
    var init := StrictParser.Initial;
    var after := Element(n, t)[1..] + rest;
    assert Element(n, t) + rest == [Start(n, None)] + after;
    StrictParser.FieldOutsideItemIgnored(source, n, None, after, init, []);
    if t != "" {
      assert after == [Text(t)] + ([End(n)] + rest);
      StrictParser.TextSkipped(source, t, [End(n)] + rest, init, []);
    } else {
      assert after == [End(n)] + rest;
    }
    StrictSkipsEnd(source, n, rest, init, []);
  }

  /** The RSS prologue up to the first item is skipped. */
  lemma StrictRssPrologue(source: string, root: string, channel: string, title: string, t: string, body: seq<Event>)
    requires StrictParser.Classify(root) == StrictParser.OtherTag
    requires StrictParser.Classify(channel) == StrictParser.OtherTag
    requires StrictParser.Classify(title) == StrictParser.TitleTag
    ensures StrictParser.Run(source, [Start(root, None), Start(channel, None)] + (Element(title, t) + body),
                             StrictParser.Initial, [])
         == StrictParser.Run(source, body, StrictParser.Initial, [])
  {
    var x := Element(title, t) + body;
    assert [Start(root, None), Start(channel, None)] + x == [Start(root, None)] + ([Start(channel, None)] + x);
    StrictSkipsStart(source, root, None, [Start(channel, None)] + x, StrictParser.Initial, []);
    StrictSkipsStart(source, channel, None, x, StrictParser.Initial, []);
    StrictSkipsOuterTitle(source, title, t, body);
  }

  lemma StrictReadsRssWith(source: string, v: Vocabulary, channelTitle: string, es: seq<Entry>)
    requires StrictVocabulary(v)
    ensures StrictParser.Parse(source, RssDocument(v, channelTitle, es)) == Ok(StrictItems(source, es))
  {
    var body := RssItemsThen(v, es, [End(v.channel), End(v.root)]);
    var evs := RssDocument(v, channelTitle, es);
    var items := StrictItems(source, es);
    StrictRssPrologue(source, v.root, v.channel, v.title, channelTitle, body);
    StrictRssItems(source, v, es, StrictParser.Initial, []);
    assert [] + items == items;
    assert StrictParser.Run(source, evs, StrictParser.Initial, []) == Ok(items);
  }

  /** The strict parser reads an RSS document's items, in order, skipping
      the channel's own title, and emits exactly what `Emit` yields for each
      item's fields. */
  lemma StrictReadsRss(source: string, channelTitle: string, es: seq<Entry>)
    ensures StrictParser.Parse(source, RssDocument(RssTags, channelTitle, es)) == Ok(StrictItems(source, es))
  {
    RssIsStrictVocabulary();
    StrictReadsRssWith(source, RssTags, channelTitle, es);
  }

  /** The fields of an Atom entry, from the entry's start tag on. */
  lemma StrictAtomFields(source: string, v: Vocabulary, e: Entry, rest: seq<Event>, acc: seq<RssItem>)
    requires StrictVocabulary(v)
    ensures StrictParser.Run(source,
              Element(v.title, e.title) + ([Start(v.link, Some(e.link)), End(v.link)]
                + (Optional(v.description, e.description) + (Optional(v.date, e.pubDate) + rest))),
              StrictParser.Opened, acc)
         == StrictParser.Run(source, rest, Captured(e), acc)
  {
    var d := Optional(v.date, e.pubDate) + rest;
    var c := Optional(v.description, e.description) + d;
    var b := [Start(v.link, Some(e.link)), End(v.link)] + c;
    var s0 := StrictParser.Opened;
    StrictParser.ElementStores(source, v.title, e.title, b, s0, acc);
    var s1 := s0.(title := Some(e.title));
    StrictHrefLink(source, v.link, e.link, c, s1, acc);
    var s2 := s1.(link := Some(e.link));
    StrictOptional(source, v.description, e.description, d, s2, acc);
    var s3 := s2.(description := e.description);
    StrictOptional(source, v.date, e.pubDate, rest, s3, acc);
    assert s3.(pubDate := e.pubDate) == Captured(e);
  }

  /** `<link href="h"/>` inside an item stores `h`. */
  lemma StrictHrefLink(source: string, n: string, h: string, rest: seq<Event>,
                       sc: StrictParser.Scratch, acc: seq<RssItem>)
    requires StrictParser.Classify(n) == StrictParser.LinkTag && sc.inside
    ensures StrictParser.Run(source, [Start(n, Some(h)), End(n)] + rest, sc, acc)
         == StrictParser.Run(source, rest, sc.(link := Some(h)), acc)
  {
    var b := [Start(n, Some(h)), End(n)] + rest;
    assert b[0] == Start(n, Some(h));
    assert b[1..] == [End(n)] + rest;
    assert acc + [] == acc;
    StrictSkipsEnd(source, n, rest, sc.(link := Some(h)), acc);
  }

  lemma StrictAtomEntry(source: string, v: Vocabulary, e: Entry, rest: seq<Event>,
                        sc: StrictParser.Scratch, acc: seq<RssItem>)
    requires StrictVocabulary(v)
    ensures StrictParser.Run(source, AtomEntryThen(v, e, rest), sc, acc)
         == StrictParser.Run(source, rest, Captured(e).(inside := false), acc + StrictParser.Emit(source, Captured(e)))
  {
    var tail := [End(v.item)] + rest;
    var a := Element(v.title, e.title) + ([Start(v.link, Some(e.link)), End(v.link)]
      + (Optional(v.description, e.description) + (Optional(v.date, e.pubDate) + tail)));
    StrictParser.ItemStartResets(source, v.item, None, a, sc, acc);
    StrictAtomFields(source, v, e, tail, acc);
    StrictParser.ItemEndEmits(source, v.item, rest, Captured(e), acc);
  }

  lemma {:induction false} StrictAtomEntries(source: string, v: Vocabulary, es: seq<Entry>,
                                             sc: StrictParser.Scratch, acc: seq<RssItem>)
    requires StrictVocabulary(v)
    ensures StrictParser.Run(source, AtomEntriesThen(v, es, [End(v.root)]), sc, acc)
         == Ok(acc + StrictItems(source, es))
    decreases |es|
  {
    if |es| == 0 {
      StrictAtomTrailer(source, v, sc, acc);
      assert acc + StrictItems(source, es) == acc;
    } else {
      var rest := AtomEntriesThen(v, es[1..], [End(v.root)]);
      StrictAtomEntry(source, v, es[0], rest, sc, acc);
      StrictAtomEntries(source, v, es[1..], Captured(es[0]).(inside := false),
                        acc + StrictParser.Emit(source, Captured(es[0])));
      StrictItemsCons(source, es, acc);
    }
  }

  /** The Atom prologue up to the first entry is skipped. */
  lemma StrictAtomPrologue(source: string, root: string, title: string, t: string, body: seq<Event>)
    requires StrictParser.Classify(root) == StrictParser.OtherTag
    requires StrictParser.Classify(title) == StrictParser.TitleTag
    ensures StrictParser.Run(source, [Start(root, None)] + (Element(title, t) + body), StrictParser.Initial, [])
         == StrictParser.Run(source, body, StrictParser.Initial, [])
  {
    StrictSkipsStart(source, root, None, Element(title, t) + body, StrictParser.Initial, []);
    StrictSkipsOuterTitle(source, title, t, body);
  }

  lemma StrictReadsAtomWith(source: string, v: Vocabulary, feedTitle: string, es: seq<Entry>)
    requires StrictVocabulary(v)
    ensures StrictParser.Parse(source, AtomDocument(v, feedTitle, es)) == Ok(StrictItems(source, es))
  {
    var body := AtomEntriesThen(v, es, [End(v.root)]);
    var evs := AtomDocument(v, feedTitle, es);
    var items := StrictItems(source, es);
    StrictAtomPrologue(source, v.root, v.title, feedTitle, body);
    StrictAtomEntries(source, v, es, StrictParser.Initial, []);
    assert [] + items == items;
    assert StrictParser.Run(source, evs, StrictParser.Initial, []) == Ok(items);
  }

  /** The strict parser reads an Atom document's entries exactly as it
      reads the same entries written as RSS items. */
  lemma StrictReadsAtom(source: string, feedTitle: string, es: seq<Entry>)
    ensures StrictParser.Parse(source, AtomDocument(AtomTags, feedTitle, es)) == Ok(StrictItems(source, es))
  {
    AtomIsStrictVocabulary();
    StrictReadsAtomWith(source, AtomTags, feedTitle, es);
  }

  /** An entry written the way the strict parser emits items: title and link
      trimmed and non-empty, description absent or plain and non-empty,
      date absent or trimmed. */
  predicate Clean(e: Entry) {
    && e.title != "" && IsTrimmed(e.title)
    && e.link != "" && IsTrimmed(e.link)
    && (e.description.Some? ==> e.description.value != "" && IsPlain(e.description.value))
    && (e.pubDate.Some? ==> IsTrimmed(e.pubDate.value))
  }

  function ToRssItem(source: string, e: Entry): RssItem {
    RssItem(e.title, e.description, e.link, e.pubDate, source)
  }

  /** The items that carry exactly the fields of `es`. */
  function ToRssItems(source: string, es: seq<Entry>): (r: seq<RssItem>)
    ensures |r| == |es|
    ensures forall i :: 0 <= i < |es| ==> r[i] == ToRssItem(source, es[i])
    decreases |es|
  {
    if |es| == 0 then [] else [ToRssItem(source, es[0])] + ToRssItems(source, es[1..])
  }

  /** Clean entries come back unchanged, one item each. */
  lemma {:induction false} CleanEntriesRoundTrip(source: string, es: seq<Entry>)
    requires forall i :: 0 <= i < |es| ==> Clean(es[i])
    ensures StrictItems(source, es) == ToRssItems(source, es)
    decreases |es|
  {
    if |es| > 0 {
      CleanEntryEmitsItself(source, es[0]);
      CleanEntriesRoundTrip(source, es[1..]);
    }
  }

  lemma CleanEntryEmitsItself(source: string, e: Entry)
    requires Clean(e)
    ensures StrictParser.Emit(source, Captured(e)) == [ToRssItem(source, e)]
  {
    TrimmedIsFixpoint(e.title);
    TrimmedIsFixpoint(e.link);
    if e.description.Some? { StripHtmlFixpoint(e.description.value); }
    if e.pubDate.Some? { TrimmedIsFixpoint(e.pubDate.value); }
  }

  /** Parsing the RSS rendering of clean entries gives back those entries. */
  lemma StrictRssRoundTrip(source: string, channelTitle: string, es: seq<Entry>)
    requires forall i :: 0 <= i < |es| ==> Clean(es[i])
    ensures StrictParser.Parse(source, RssDocument(RssTags, channelTitle, es))
         == Ok(ToRssItems(source, es))
  {
    StrictReadsRss(source, channelTitle, es);
    CleanEntriesRoundTrip(source, es);
  }

  /** Parsing the Atom rendering of clean entries gives back those entries. */
  lemma StrictAtomRoundTrip(source: string, feedTitle: string, es: seq<Entry>)
    requires forall i :: 0 <= i < |es| ==> Clean(es[i])
    ensures StrictParser.Parse(source, AtomDocument(AtomTags, feedTitle, es))
         == Ok(ToRssItems(source, es))
  {
    StrictReadsAtom(source, feedTitle, es);
    CleanEntriesRoundTrip(source, es);
  }

  // ---------------------------------------------------------------------
  // The lenient parser

  /** The lenient parser recognises the item, field and outer names of `v`. */
  predicate LenientVocabulary(v: Vocabulary) {
    && LenientParser.IsItem(v.item)
    && !LenientParser.IsItem(v.root) && !LenientParser.IsItem(v.channel)
    && Lower(v.title) == "title" && Lower(v.link) == "link"
    && Lower(v.description) == "description" && Lower(v.date) == "pubdate"
  }

  lemma RssIsLenientVocabulary()
    ensures LenientVocabulary(RssTags)
  {
    RssOuterNames();
    LowerTitle(); LowerLink(); LowerDescription(); LowerPubDate();
  }

  lemma RssOuterNames()
    ensures LenientParser.IsItem("item")
    ensures !LenientParser.IsItem("rss") && !LenientParser.IsItem("channel")
  {
    LowerRss(); LowerChannel(); LowerItem();
  }

  /** None of the Atom names is `item`, in any letter case. */
  predicate OpensNoLenientItem(v: Vocabulary) {
    && !LenientParser.IsItem(v.root) && !LenientParser.IsItem(v.item)
    && !LenientParser.IsItem(v.title) && !LenientParser.IsItem(v.link)
    && !LenientParser.IsItem(v.description) && !LenientParser.IsItem(v.date)
  }

  lemma AtomOpensNoLenientItem()
    ensures OpensNoLenientItem(AtomTags)
  {
    LowerFeed(); LowerEntry(); LowerTitle();
    LowerLink(); LowerSummary(); LowerUpdated();
  }

  /** What the lenient parser makes of one entry's fields.  An empty
      element reports no text, so it leaves its field null: an empty title
      becomes "(untitled)" and an empty description "", without passing
      through the HTML converter. */
  function LenientItem(source: string, conv: LenientParser.Converters, e: Entry): NewsItem {
    NewsItem(
      if e.title == "" then "(untitled)" else Trim(e.title),
      match e.description
        case None => ""
        case Some(d) => if d == "" then "" else LenientParser.HtmlToPlainText(conv, Trim(d)),
      Trim(e.link),
      Dates.ParseDate(e.pubDate.Map(Trim), conv.now, conv.tryParse),
      source)
  }

  function LenientItems(source: string, conv: LenientParser.Converters, es: seq<Entry>): (r: seq<NewsItem>)
    ensures |r| == |es|
    ensures forall i :: 0 <= i < |es| ==> r[i] == LenientItem(source, conv, es[i])
    decreases |es|
  {
    if |es| == 0 then [] else [LenientItem(source, conv, es[0])] + LenientItems(source, conv, es[1..])
  }

  /** The text pending when a field element ends: none for an empty
      element. */
  function ElementText(t: string): Option<string> {
    if t == "" then None else Some(t)
  }

  /** The same for an element that may be absent. */
  function OptionalText(v: Option<string>): Option<string> {
    match v
    case None => None
    case Some(t) => ElementText(t)
  }

  /** The lenient state after an entry's fields have been read. */
  function LenientCaptured(e: Entry): LenientParser.Cursor {
    LenientParser.Cursor(true, None, ElementText(e.title).Map(Trim), OptionalText(e.description).Map(Trim),
                         ElementText(e.link).Map(Trim), OptionalText(e.pubDate).Map(Trim))
  }

  lemma LenientCons(e: Event, rest: seq<Event>, c: LenientParser.Cursor, source: string, conv: LenientParser.Converters)
    ensures LenientParser.Run([e] + rest, c, source, conv)
         == LenientParser.Step(c, e, source, conv).emitted
            + LenientParser.Run(rest, LenientParser.Step(c, e, source, conv).cursor, source, conv)
  {
    assert ([e] + rest)[0] == e;
    assert ([e] + rest)[1..] == rest;
  }

  /** A field element `<n>t</n>` inside an item, for a name that is not
      `item`, with no text pending before it. */
  lemma LenientElement(n: string, t: string, rest: seq<Event>, c: LenientParser.Cursor,
                       source: string, conv: LenientParser.Converters)
    requires c.inside && c.pending.None? && !LenientParser.IsItem(n)
    ensures LenientParser.Run(Element(n, t) + rest, c, source, conv)
         == LenientParser.Run(rest, LenientParser.Assign(c.(pending := ElementText(t)), n).(pending := None), source, conv)
  {
    if t == "" {
      assert Element(n, t) + rest == [Start(n, None)] + ([End(n)] + rest);
      LenientCons(Start(n, None), [End(n)] + rest, c, source, conv);
      LenientCons(End(n), rest, c, source, conv);
    } else {
      assert Element(n, t) + rest == [Start(n, None)] + ([Text(t)] + ([End(n)] + rest));
      LenientCons(Start(n, None), [Text(t)] + ([End(n)] + rest), c, source, conv);
      LenientCons(Text(t), [End(n)] + rest, c, source, conv);
      LenientCons(End(n), rest, c.(pending := Some(t)), source, conv);
    }
  }

  lemma LenientOptional(n: string, v: Option<string>, rest: seq<Event>, c: LenientParser.Cursor,
                        source: string, conv: LenientParser.Converters)
    requires c.inside && c.pending.None? && !LenientParser.IsItem(n)
    ensures LenientParser.Run(Optional(n, v) + rest, c, source, conv)
         == LenientParser.Run(rest,
              if v.Some? then LenientParser.Assign(c.(pending := ElementText(v.value)), n).(pending := None) else c,
              source, conv)
  {
    if v.Some? {
      LenientElement(n, v.value, rest, c, source, conv);
    } else {
      assert Optional(n, v) + rest == rest;
    }
  }

  /** The fields of an RSS item, from its start tag on. */
  lemma LenientFields(v: Vocabulary, e: Entry, rest: seq<Event>, source: string, conv: LenientParser.Converters)
    requires LenientVocabulary(v)
    ensures LenientParser.Run(
              Element(v.title, e.title) + (Element(v.link, e.link)
                + (Optional(v.description, e.description) + (Optional(v.date, e.pubDate) + rest))),
              LenientParser.Cursor(true, None, None, None, None, None), source, conv)
         == LenientParser.Run(rest, LenientCaptured(e), source, conv)
  {
    var d := Optional(v.date, e.pubDate) + rest;
    var c := Optional(v.description, e.description) + d;
    var b := Element(v.link, e.link) + c;
    var s0 := LenientParser.Cursor(true, None, None, None, None, None);
    LenientElement(v.title, e.title, b, s0, source, conv);
    var s1 := s0.(title := ElementText(e.title).Map(Trim));
    LenientElement(v.link, e.link, c, s1, source, conv);
    var s2 := s1.(link := ElementText(e.link).Map(Trim));
    LenientOptional(v.description, e.description, d, s2, source, conv);
    var s3 := s2.(description := OptionalText(e.description).Map(Trim));
    LenientOptional(v.date, e.pubDate, rest, s3, source, conv);
    assert s3.(pubDate := OptionalText(e.pubDate).Map(Trim)) == LenientCaptured(e);
  }

  lemma LenientRssItem(v: Vocabulary, e: Entry, rest: seq<Event>, c: LenientParser.Cursor,
                       source: string, conv: LenientParser.Converters)
    requires LenientVocabulary(v) && c.pending.None?
    ensures LenientParser.Run(RssItemThen(v, e, rest), c, source, conv)
         == [LenientItem(source, conv, e)]
            + LenientParser.Run(rest, LenientCaptured(e).(inside := false), source, conv)
  {
    var tail := [End(v.item)] + rest;
    var a := Element(v.title, e.title) + (Element(v.link, e.link)
      + (Optional(v.description, e.description) + (Optional(v.date, e.pubDate) + tail)));
    LenientCons(Start(v.item, None), a, c, source, conv);
    assert c.(inside := true, title := None, description := None, link := None, pubDate := None)
        == LenientParser.Cursor(true, None, None, None, None, None);
    LenientFields(v, e, tail, source, conv);
    LenientCons(End(v.item), rest, LenientCaptured(e), source, conv);
    LenientConvertCaptured(e, source, conv);
  }

  /** The item built from an entry's captured fields is `LenientItem`. */
  lemma LenientConvertCaptured(e: Entry, source: string, conv: LenientParser.Converters)
    ensures LenientParser.Convert(LenientCaptured(e), source, conv) == LenientItem(source, conv, e)
  {
    var c := LenientCaptured(e);
    var n := LenientParser.Convert(c, source, conv);
    var m := LenientItem(source, conv, e);
    assert n.title == m.title;
    assert n.description == m.description;
    assert n.link == m.link by {
      if e.link == "" { TrimEmpty(); }
    }
    assert n.pubDate == m.pubDate by {
      LenientDateCaptured(e.pubDate, conv);
    }
  }

  /** An empty date element leaves the date null, which `parseDate` reads
      as the clock, the same as a blank date. */
  lemma LenientDateCaptured(v: Option<string>, conv: LenientParser.Converters)
    ensures Dates.ParseDate(OptionalText(v).Map(Trim), conv.now, conv.tryParse)
         == Dates.ParseDate(v.Map(Trim), conv.now, conv.tryParse)
  {
    if v.Some? && v.value == "" {
      TrimEmpty();
      assert IsBlank(Trim(v.value));
    }
  }

  lemma TrimEmpty()
    ensures Trim("") == ""
  {
  }

  lemma {:induction false} LenientRssItems(v: Vocabulary, es: seq<Entry>, c: LenientParser.Cursor,
                                           source: string, conv: LenientParser.Converters)
    requires LenientVocabulary(v) && !c.inside && c.pending.None?
    ensures LenientParser.Run(RssItemsThen(v, es, [End(v.channel), End(v.root)]), c, source, conv)
         == LenientItems(source, conv, es)
    decreases |es|
  {
    if |es| == 0 {
      LenientCons(End(v.channel), [End(v.root)], c, source, conv);
      LenientCons(End(v.root), [], c.(pending := None), source, conv);
      assert [End(v.root)] + [] == [End(v.root)];
    } else {
      var rest := RssItemsThen(v, es[1..], [End(v.channel), End(v.root)]);
      LenientRssItem(v, es[0], rest, c, source, conv);
      LenientRssItems(v, es[1..], LenientCaptured(es[0]).(inside := false), source, conv);
    }
  }

  lemma LenientRssPrologue(v: Vocabulary, t: string, body: seq<Event>, source: string, conv: LenientParser.Converters)
    requires LenientVocabulary(v)
    ensures LenientParser.Run([Start(v.root, None), Start(v.channel, None)] + (Element(v.title, t) + body),
                              LenientParser.Fresh, source, conv)
         == LenientParser.Run(body, LenientParser.Fresh, source, conv)
  {
    var f := LenientParser.Fresh;
    var x := Element(v.title, t) + body;
    assert [Start(v.root, None), Start(v.channel, None)] + x == [Start(v.root, None)] + ([Start(v.channel, None)] + x);
    LenientCons(Start(v.root, None), [Start(v.channel, None)] + x, f, source, conv);
    LenientCons(Start(v.channel, None), x, f, source, conv);
    if t == "" {
      assert x == [Start(v.title, None)] + ([End(v.title)] + body);
      LenientCons(Start(v.title, None), [End(v.title)] + body, f, source, conv);
      LenientCons(End(v.title), body, f, source, conv);
    } else {
      assert x == [Start(v.title, None)] + ([Text(t)] + ([End(v.title)] + body));
      LenientCons(Start(v.title, None), [Text(t)] + ([End(v.title)] + body), f, source, conv);
      LenientCons(Text(t), [End(v.title)] + body, f, source, conv);
      LenientCons(End(v.title), body, f.(pending := Some(t)), source, conv);
    }
  }

  /** The lenient parser reads an RSS document's items, in order, skipping
      the channel's title: every item yields one `NewsItem` built from its
      trimmed fields. */
  lemma LenientReadsRss(source: string, conv: LenientParser.Converters, channelTitle: string, es: seq<Entry>)
    ensures LenientParser.Parse(RssDocument(RssTags, channelTitle, es), source, conv)
         == LenientItems(source, conv, es)
  {
    RssIsLenientVocabulary();
    LenientReadsRssWith(source, conv, RssTags, channelTitle, es);
  }

  lemma LenientReadsRssWith(source: string, conv: LenientParser.Converters, v: Vocabulary,
                            channelTitle: string, es: seq<Entry>)
    requires LenientVocabulary(v)
    ensures LenientParser.Parse(RssDocument(v, channelTitle, es), source, conv)
         == LenientItems(source, conv, es)
  {
    var body := RssItemsThen(v, es, [End(v.channel), End(v.root)]);
    LenientRssPrologue(v, channelTitle, body, source, conv);
    LenientRssItems(v, es, LenientParser.Fresh, source, conv);
  }

  lemma ElementOpensNoItem(n: string, t: string)
    requires !LenientParser.IsItem(n)
    ensures LenientParser.NoItemStart(Element(n, t))
  {
  }

  lemma OptionalOpensNoItem(n: string, v: Option<string>)
    requires !LenientParser.IsItem(n)
    ensures LenientParser.NoItemStart(Optional(n, v))
  {
  }

  lemma AtomEntryOpensNoItem(v: Vocabulary, e: Entry, rest: seq<Event>)
    requires OpensNoLenientItem(v) && LenientParser.NoItemStart(rest)
    ensures LenientParser.NoItemStart(AtomEntryThen(v, e, rest))
  {
    var tail := [End(v.item)] + rest;
    LenientParser.NoItemStartConcat([End(v.item)], rest);
    OptionalOpensNoItem(v.date, e.pubDate);
    LenientParser.NoItemStartConcat(Optional(v.date, e.pubDate), tail);
    var d := Optional(v.date, e.pubDate) + tail;
    OptionalOpensNoItem(v.description, e.description);
    LenientParser.NoItemStartConcat(Optional(v.description, e.description), d);
    var c := Optional(v.description, e.description) + d;
    LenientParser.NoItemStartConcat([Start(v.link, Some(e.link)), End(v.link)], c);
    var b := [Start(v.link, Some(e.link)), End(v.link)] + c;
    ElementOpensNoItem(v.title, e.title);
    LenientParser.NoItemStartConcat(Element(v.title, e.title), b);
    LenientParser.NoItemStartConcat([Start(v.item, None)], Element(v.title, e.title) + b);
  }

  lemma {:induction false} AtomEntriesOpenNoItem(v: Vocabulary, es: seq<Entry>, rest: seq<Event>)
    requires OpensNoLenientItem(v) && LenientParser.NoItemStart(rest)
    ensures LenientParser.NoItemStart(AtomEntriesThen(v, es, rest))
    decreases |es|
  {
    if |es| > 0 {
      AtomEntriesOpenNoItem(v, es[1..], rest);
      AtomEntryOpensNoItem(v, es[0], AtomEntriesThen(v, es[1..], rest));
    }
  }

  lemma LenientIgnoresAtomWith(source: string, conv: LenientParser.Converters, v: Vocabulary,
                               feedTitle: string, es: seq<Entry>)
    requires OpensNoLenientItem(v)
    ensures LenientParser.Parse(AtomDocument(v, feedTitle, es), source, conv) == []
  {
    AtomEntriesOpenNoItem(v, es, [End(v.root)]);
    var body := AtomEntriesThen(v, es, [End(v.root)]);
    ElementOpensNoItem(v.title, feedTitle);
    LenientParser.NoItemStartConcat(Element(v.title, feedTitle), body);
    LenientParser.NoItemStartConcat([Start(v.root, None)], Element(v.title, feedTitle) + body);
    LenientParser.NoItemNoNews(AtomDocument(v, feedTitle, es), LenientParser.Fresh, source, conv);
  }

  /** The lenient parser only knows RSS `item`s: it reads nothing from an
      Atom document, however many entries it has. */
  lemma LenientIgnoresAtom(source: string, conv: LenientParser.Converters, feedTitle: string, es: seq<Entry>)
    ensures LenientParser.Parse(AtomDocument(AtomTags, feedTitle, es), source, conv) == []
  {
    AtomOpensNoLenientItem();
    LenientIgnoresAtomWith(source, conv, AtomTags, feedTitle, es);
  }
}
