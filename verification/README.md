# AuryxGameNews feed pipeline, in Dafny

A model of the feed pipeline of the AuryxGameNews Android app, with its
I/O removed. The app carries two parallel pipelines, and both are modelled:

- the **strict** pipeline: `data/RssParser.kt` reads RSS `item`s and Atom
  `entry`s through a `readText` look-ahead, drops items without a title or a
  link and cleans descriptions with `stripHtml`; `data/NewsRepository.kt`
  fetches three registered feeds, skips unsuccessful answers, and keeps the
  first item of every link (`distinctBy { it.link }`);
- the **lenient** pipeline: `data/parser/RssParser.kt` remembers the last
  text and assigns fields on end tags, emits every RSS `item` with
  placeholders for missing fields and parses dates against five patterns;
  `data/repository/NewsRepository.kt` fails the whole fetch on any non-2xx
  answer and otherwise sorts everything newest first.

The XML tokenizer is replaced by an event list
(`Start(name, href) | Text(text) | End(name)`, `xml.dfy`), the HTTP clients
by functions from request to response, `HtmlCompat.fromHtml` and
`SimpleDateFormat` by function parameters, and `Date()` by a `now`
parameter.

| file | module | models |
|---|---|---|
| `common.dfy` | `Common` | `Option`, `Result` |
| `text.dfy` | `Text` | Kotlin `trim`, `isBlank`, `lowercase`, regex `\s`, substring search |
| `html_text.dfy` | `HtmlText` | `stripHtml`: its four passes and their properties |
| `xml.dfy` | `Xml` | pull-parser events; a payload is a document or malformed XML |
| `models.dfy` | `Models` | `RssFeedSource`, `RssItem`, `NewsItem` (dates as `int`) |
| `strict_parser.dfy` | `StrictParser` | `data/RssParser.kt` `parse` and `readText` |
| `dates.dfy` | `Dates` | `parseDate` of the lenient parser |
| `lenient_parser.dfy` | `LenientParser` | `data/parser/RssParser.kt` `parse` and `htmlToPlainText` |
| `feed_documents.dfy` | `FeedDocuments` | RSS 2.0 and Atom documents, and what each parser reads from them |
| `distinct.dfy` | `Distinct` | `distinctBy { it.link }` |
| `date_sort.dfy` | `DateSort` | stable `sortByDescending { it.pubDate }` |
| `strict_repository.dfy` | `StrictRepository` | `data/NewsRepository.kt` |
| `lenient_repository.dfy` | `LenientRepository` | `data/repository/NewsRepository.kt` |

Behaviour of the code worth knowing before reading the model: the strict
parser keeps `pubDate` as the trimmed raw string and never parses it; a
later alias (`summary` after `description`, `updated` after `published`)
overwrites the earlier value; `stripHtml` does not decode entities; both repositories fetch their feeds one after another; the
strict repository reports no per-feed failures (an exception simply
escapes); the lenient repository neither de-duplicates nor keeps partial
results.

## Model

Source paths are relative to the repository root.

| member | source | states |
|---|---|---|
| Text.Trim | app/src/main/java/com/xdustatom/auryxgamenews/data/RssParser.kt:83 | the result has no whitespace at either end, is the slice of the input after its leading whitespace and before only trailing whitespace, and is empty exactly when the input is blank |
| Text.TrimIdempotent | app/src/main/java/com/xdustatom/auryxgamenews/data/RssParser.kt:83 | trimming twice is trimming once |
| Text.Lower | app/src/main/java/com/xdustatom/auryxgamenews/data/RssParser.kt:27 | lower-casing keeps the length and lower-cases every ASCII letter in place |
| Text.IndexOf | app/src/main/java/com/xdustatom/auryxgamenews/data/RssParser.kt:80 | the first index where the pattern occurs, none before it, and none at all when absent (the lazy `.*?` stop) |
| HtmlText.UnwrapCData | app/src/main/java/com/xdustatom/auryxgamenews/data/RssParser.kt:80 | the CDATA pass never lengthens the text and leaves text without any `<…>` span alone |
| HtmlText.UnwrapSection | app/src/main/java/com/xdustatom/auryxgamenews/data/RssParser.kt:80 | a closed section `<![CDATA[x]]>` is replaced by `x`, ending at the first `]]>` |
| HtmlText.UnwrapWithoutSections | app/src/main/java/com/xdustatom/auryxgamenews/data/RssParser.kt:80 | text with no `<![CDATA[` passes the CDATA pass unchanged |
| HtmlText.ReplaceTags | app/src/main/java/com/xdustatom/auryxgamenews/data/RssParser.kt:81 | the `<[^>]*>` pass, scanning left to right, never lengthens the text (its properties are the lemmas below) |
| HtmlText.ReplaceTagsRemovesTags | app/src/main/java/com/xdustatom/auryxgamenews/data/RssParser.kt:81 | after the tag pass no `<` is followed by a `>` |
| HtmlText.ReplaceTagsChars | app/src/main/java/com/xdustatom/auryxgamenews/data/RssParser.kt:81 | the tag pass only writes input characters and spaces |
| HtmlText.ReplaceTagsFixpoint | app/src/main/java/com/xdustatom/auryxgamenews/data/RssParser.kt:81 | text without a tag span passes the tag pass unchanged |
| HtmlText.ReplaceTagsTag | app/src/main/java/com/xdustatom/auryxgamenews/data/RssParser.kt:81 | a tag `<inner>` becomes exactly one space |
| HtmlText.ReplaceTagsText | app/src/main/java/com/xdustatom/auryxgamenews/data/RssParser.kt:81 | text before the first `<` is copied unchanged |
| HtmlText.CollapseSpaces | app/src/main/java/com/xdustatom/auryxgamenews/data/RssParser.kt:82 | the `\s+` pass never lengthens the text and begins with a space exactly where the input begins with whitespace, otherwise with the input's first character |
| HtmlText.CollapseSingleSpaced | app/src/main/java/com/xdustatom/auryxgamenews/data/RssParser.kt:82 | after the whitespace pass every `\s` is a space and no two are adjacent |
| HtmlText.CollapseChars | app/src/main/java/com/xdustatom/auryxgamenews/data/RssParser.kt:82 | the whitespace pass only writes input characters and spaces |
| HtmlText.CollapseKeepsWords | app/src/main/java/com/xdustatom/auryxgamenews/data/RssParser.kt:82 | the whitespace pass keeps every non-space character, in order |
| HtmlText.CollapseFixpoint | app/src/main/java/com/xdustatom/auryxgamenews/data/RssParser.kt:82 | single-spaced text passes the whitespace pass unchanged |
| HtmlText.CollapseRun | app/src/main/java/com/xdustatom/auryxgamenews/data/RssParser.kt:82 | a whole `\s+` run becomes one space |
| HtmlText.StripHtml | app/src/main/java/com/xdustatom/auryxgamenews/data/RssParser.kt:78-84 | the result is no longer than the input, has no tag span, no two adjacent regex `\s` characters, every `\s` character left is a plain space, and it has no Kotlin-`trim` whitespace at either end (U+001C..U+001F, which `\s` does not match, may still stand side by side inside) |
| HtmlText.StripHtmlFixpoint | app/src/main/java/com/xdustatom/auryxgamenews/data/RssParser.kt:78-84 | text already of that shape is returned unchanged |
| HtmlText.StripHtmlIdempotent | app/src/main/java/com/xdustatom/auryxgamenews/data/RssParser.kt:78-84 | stripping twice is stripping once |
| HtmlText.MarkupInsideCData | app/src/main/java/com/xdustatom/auryxgamenews/data/RssParser.kt:80-83 | `<![CDATA[a <t>b</t>]]>` strips to `a b`: CDATA is unwrapped before its markup is removed |
| HtmlText.CDataExample | app/src/main/java/com/xdustatom/auryxgamenews/data/RssParser.kt:78-84 | `<![CDATA[Raw <i>text</i>]]>` strips to `Raw text` |
| StrictParser.ReadText | app/src/main/java/com/xdustatom/auryxgamenews/data/RssParser.kt:69-76 | when the event after the start tag is text, the value is that text and three events are passed, unless `nextTag` meets no tag after it (end of input or more text), which is the only failure; otherwise the value is "" and two events are passed |
| StrictParser.ReadTextOfElement | app/src/main/java/com/xdustatom/auryxgamenews/data/RssParser.kt:69-76 | on any element, empty or not, `readText` returns exactly the element's text and stops on the element's end tag |
| StrictParser.CleanDescription | app/src/main/java/com/xdustatom/auryxgamenews/data/RssParser.kt:53 | a description is absent when none was captured or when it strips to nothing, and otherwise is exactly `stripHtml` of the captured text, which is non-empty plain text |
| StrictParser.Emit | app/src/main/java/com/xdustatom/auryxgamenews/data/RssParser.kt:46-58 | an item is emitted exactly when the trimmed title and trimmed link are non-empty; it carries those trimmed strings, the cleaned description, the trimmed raw date and the source name |
| StrictParser.StrictStep | app/src/main/java/com/xdustatom/auryxgamenews/data/RssParser.kt:24-63 | one turn of the loop consumes at least one event and emits at most one well-formed item |
| StrictParser.Run | app/src/main/java/com/xdustatom/auryxgamenews/data/RssParser.kt:24-66 | items are only appended, in document order, and all are well formed |
| StrictParser.Parse | app/src/main/java/com/xdustatom/auryxgamenews/data/RssParser.kt:9-67 | every emitted item has a non-empty trimmed title and link, plain description and the source name |
| StrictParser.ItemStartResets | app/src/main/java/com/xdustatom/auryxgamenews/data/RssParser.kt:28-34 | an `item`/`entry` start tag in any case enters an item with all four fields absent, whatever came before |
| StrictParser.FieldOutsideItemIgnored | app/src/main/java/com/xdustatom/auryxgamenews/data/RssParser.kt:35-41 | a field start tag outside an item changes nothing and consumes only itself |
| StrictParser.Classify | app/src/main/java/com/xdustatom/auryxgamenews/data/RssParser.kt:27-41 | the lower-cased name decides the role: `item`/`entry`, `title`, `description`/`summary`, `link`, `pubdate`/`published`/`updated`, each exactly for those names |
| StrictParser.ElementStores | app/src/main/java/com/xdustatom/auryxgamenews/data/RssParser.kt:35-41 | inside an item, `<field>text</field>` stores the text in that field and consumes the element; an empty element stores "" |
| StrictParser.LaterAliasWins | app/src/main/java/com/xdustatom/auryxgamenews/data/RssParser.kt:36-41 | of two aliases of the same field, the later value is kept |
| StrictParser.LinkPrefersHref | app/src/main/java/com/xdustatom/auryxgamenews/data/RssParser.kt:37-40 | a `link` with an `href` takes the attribute and leaves the element's text to the loop |
| StrictParser.ItemEndEmits | app/src/main/java/com/xdustatom/auryxgamenews/data/RssParser.kt:46-58 | an `item`/`entry` end tag leaves the item and appends what `Emit` yields for the captured fields |
| FeedDocuments.StrictReadsRss | app/src/main/java/com/xdustatom/auryxgamenews/data/RssParser.kt:24-64 | on an RSS document the strict parser succeeds and emits, entry by entry in order, what `Emit` makes of each item's fields; the channel title is not an item |
| FeedDocuments.StrictReadsAtom | app/src/main/java/com/xdustatom/auryxgamenews/data/RssParser.kt:24-64 | the same for an Atom document, with links taken from `href` |
| FeedDocuments.StrictRssRoundTrip | app/src/main/java/com/xdustatom/auryxgamenews/data/RssParser.kt:45-58 | parsing the RSS rendering of clean entries gives back exactly those entries |
| FeedDocuments.StrictAtomRoundTrip | app/src/main/java/com/xdustatom/auryxgamenews/data/RssParser.kt:45-58 | parsing the Atom rendering of clean entries gives back exactly those entries |
| FeedDocuments.CleanEntryEmitsItself | app/src/main/java/com/xdustatom/auryxgamenews/data/RssParser.kt:48-55 | trimming and stripping leave an already clean entry unchanged |
| FeedDocuments.LenientReadsRss | app/src/main/java/com/xdustatom/auryxgamenews/data/parser/RssParser.kt:37-79 | on an RSS document the lenient parser emits one item per entry, in order, from the trimmed fields; an empty title element yields "(untitled)" and an empty description "", since an empty element reports no text |
| FeedDocuments.LenientIgnoresAtom | app/src/main/java/com/xdustatom/auryxgamenews/data/parser/RssParser.kt:40 | the lenient parser reads no item from an Atom document, since `entry` does not open one |
| Dates.FirstParse | app/src/main/java/com/xdustatom/auryxgamenews/data/parser/RssParser.kt:101-107 | the result is that of the first pattern that parses, after all earlier ones failed; none exactly when all fail |
| Dates.ParseDate | app/src/main/java/com/xdustatom/auryxgamenews/data/parser/RssParser.kt:90-110 | absent or blank input gives `now`; otherwise the first of the five patterns that parses decides, and `now` when none does |
| Dates.FirstPatternWins | app/src/main/java/com/xdustatom/auryxgamenews/data/parser/RssParser.kt:93-103 | when the RFC 822 pattern with seconds parses, its result is taken |
| Dates.UnparsableIsNow | app/src/main/java/com/xdustatom/auryxgamenews/data/parser/RssParser.kt:101-109 | input no pattern parses gives `now` |
| LenientParser.HtmlToPlainText | app/src/main/java/com/xdustatom/auryxgamenews/data/parser/RssParser.kt:84-88 | the converted text is trimmed, and empty exactly when the converter's output is blank |
| LenientParser.Convert | app/src/main/java/com/xdustatom/auryxgamenews/data/parser/RssParser.kt:62-70 | missing title becomes `(untitled)`, missing description and link become empty, the date goes through `parseDate`, the source is attached |
| LenientParser.Assign | app/src/main/java/com/xdustatom/auryxgamenews/data/parser/RssParser.kt:55-60 | the end tag's lower-cased name picks the field that takes the trimmed remembered text (`dc:date` only while no date is set); every other field and the remembered text are unchanged |
| LenientParser.ItemStartResets | app/src/main/java/com/xdustatom/auryxgamenews/data/parser/RssParser.kt:39-46 | an `item` start tag in any letter case enters an item with all four fields null, keeps the remembered text and emits nothing |
| LenientParser.Step | app/src/main/java/com/xdustatom/auryxgamenews/data/parser/RssParser.kt:38-78 | one event emits an item exactly when it is an `item` end tag inside an item; every end tag forgets the remembered text |
| LenientParser.Run | app/src/main/java/com/xdustatom/auryxgamenews/data/parser/RssParser.kt:37-79 | no more items than events, each carrying the source name |
| LenientParser.Parse | app/src/main/java/com/xdustatom/auryxgamenews/data/parser/RssParser.kt:18-82 | the same from the initial state |
| LenientParser.RunConcat | app/src/main/java/com/xdustatom/auryxgamenews/data/parser/RssParser.kt:37-79 | the items of a concatenation are those of the first part followed by those of the second: document order |
| LenientParser.InsideIsOpenAfter | app/src/main/java/com/xdustatom/auryxgamenews/data/parser/RssParser.kt:40-71 | the parser is inside an item exactly when the last item boundary seen is a start tag |
| LenientParser.ItemEndEmitsWhenOpen | app/src/main/java/com/xdustatom/auryxgamenews/data/parser/RssParser.kt:61-72 | an `item` end tag appends exactly one item, built from the captured fields, when an item is open, and nothing otherwise |
| LenientParser.AtMostOnePerItemEnd | app/src/main/java/com/xdustatom/auryxgamenews/data/parser/RssParser.kt:61-72 | a document yields at most one item per `item` end tag |
| LenientParser.PendingIsLatestText | app/src/main/java/com/xdustatom/auryxgamenews/data/parser/RssParser.kt:49-75 | the remembered text is the latest text event not followed by an end tag, and null after an end tag |
| LenientParser.FieldTakesLatestText | app/src/main/java/com/xdustatom/auryxgamenews/data/parser/RssParser.kt:53-60 | inside an item, a `title`, `description`, `link` or `pubDate` end tag sets its field to the trimmed latest text (or null), `dc:date` only while no date is set; nothing else but the remembered text changes |
| LenientParser.ElementStoresTrimmed | app/src/main/java/com/xdustatom/auryxgamenews/data/parser/RssParser.kt:49-56 | inside an item, `<title>text</title>` stores the trimmed text |
| LenientParser.EmptyElementTakesPrecedingText | app/src/main/java/com/xdustatom/auryxgamenews/data/parser/RssParser.kt:49-56 | an empty element takes the text that came before its start tag |
| LenientParser.EmptyElementAfterEndIsNull | app/src/main/java/com/xdustatom/auryxgamenews/data/parser/RssParser.kt:53-75 | an empty element right after another end tag stores no value, since every end tag forgets the text |
| LenientParser.PubDateBeforeDcDate | app/src/main/java/com/xdustatom/auryxgamenews/data/parser/RssParser.kt:59-60 | `pubDate` then `dc:date` keeps the `pubDate` value |
| LenientParser.PubDateAfterDcDate | app/src/main/java/com/xdustatom/auryxgamenews/data/parser/RssParser.kt:59-60 | `dc:date` then `pubDate` keeps the `pubDate` value |
| LenientParser.DcDateFillsMissingDate | app/src/main/java/com/xdustatom/auryxgamenews/data/parser/RssParser.kt:60 | `dc:date` is stored only when no date is set yet |
| LenientParser.EndOutsideItemIgnored | app/src/main/java/com/xdustatom/auryxgamenews/data/parser/RssParser.kt:53-76 | an end tag outside an item changes no field and emits nothing |
| LenientParser.NoItemNoNews | app/src/main/java/com/xdustatom/auryxgamenews/data/parser/RssParser.kt:40-72 | outside an item, events without an `item` start tag yield no items |
| Distinct.DistinctByLink | app/src/main/java/com/xdustatom/auryxgamenews/data/NewsRepository.kt:40 | no two kept items share a link and nothing is added |
| Distinct.DistinctFromDistinct | app/src/main/java/com/xdustatom/auryxgamenews/data/NewsRepository.kt:40 | the walk keeps pairwise distinct links that were not seen before |
| Distinct.DistinctByLinkContents | app/src/main/java/com/xdustatom/auryxgamenews/data/NewsRepository.kt:40 | every link of the input is kept, and every kept item is an input item |
| Distinct.DistinctIsFirstOccurrences | app/src/main/java/com/xdustatom/auryxgamenews/data/NewsRepository.kt:40 | the kept items are exactly those no earlier item shares a link with, in input order |
| Distinct.DistinctIdempotent | app/src/main/java/com/xdustatom/auryxgamenews/data/NewsRepository.kt:40 | removing duplicates twice is removing them once |
| DateSort.SortByDateDesc | app/src/main/java/com/xdustatom/auryxgamenews/data/repository/NewsRepository.kt:49 | the result is newest first and a permutation of the input |
| DateSort.SortIsStable | app/src/main/java/com/xdustatom/auryxgamenews/data/repository/NewsRepository.kt:49 | items with the same instant keep their input order |
| DateSort.StableSortIsUnique | app/src/main/java/com/xdustatom/auryxgamenews/data/repository/NewsRepository.kt:49 | any newest-first list keeping each instant's input order is the sort's result |
| DateSort.SortKeepsSorted | app/src/main/java/com/xdustatom/auryxgamenews/data/repository/NewsRepository.kt:49 | a list already newest first is returned unchanged |
| StrictRepository.GetSources | app/src/main/java/com/xdustatom/auryxgamenews/data/NewsRepository.kt:9-22 | three sources, IGN, Eurogamer and GameSpot in that order, with distinct names and URLs |
| StrictRepository.FromResponse | app/src/main/java/com/xdustatom/auryxgamenews/data/NewsRepository.kt:32-37 | a failed call is an error; an unsuccessful status or a missing body contributes nothing; a successful body is what the strict parser returns for it, and malformed XML or a parser failure is a parse error; items are well formed and carry the source name |
| StrictRepository.Collect | app/src/main/java/com/xdustatom/auryxgamenews/data/NewsRepository.kt:24-39 | every collected item comes, well formed, from one of the sources |
| StrictRepository.FetchAll | app/src/main/java/com/xdustatom/auryxgamenews/data/NewsRepository.kt:24-41 | the result's links are pairwise distinct, and it succeeds exactly when collecting does |
| StrictRepository.FirstErrorEscapes | app/src/main/java/com/xdustatom/auryxgamenews/data/NewsRepository.kt:32-37 | the first source whose call or parse throws ends the fetch with its error and no partial result |
| StrictRepository.CollectWithoutErrors | app/src/main/java/com/xdustatom/auryxgamenews/data/NewsRepository.kt:26-39 | without errors the loop yields every source's items, in registry order |
| StrictRepository.FetchAllWithoutErrors | app/src/main/java/com/xdustatom/auryxgamenews/data/NewsRepository.kt:26-40 | without errors the result is the first item of each link in registry order; it has every link found, and only items found |
| StrictRepository.NothingUsable | app/src/main/java/com/xdustatom/auryxgamenews/data/NewsRepository.kt:33-34 | when every answer is unsuccessful or bodiless, every source is still visited and the result is empty |
| LenientRepository.LoadFeed | app/src/main/java/com/xdustatom/auryxgamenews/data/repository/NewsRepository.kt:28-46 | a status outside 200..299 fails with that code and the source name, and only then; an unreachable feed fails with an I/O error, and only then; a 2xx document yields exactly what the lenient parser reads from it, and malformed XML fails as bad XML; items carry the source name |
| LenientRepository.Gather | app/src/main/java/com/xdustatom/auryxgamenews/data/repository/NewsRepository.kt:27-47 | the loop succeeds only when every feed loads |
| LenientRepository.FetchNews | app/src/main/java/com/xdustatom/auryxgamenews/data/repository/NewsRepository.kt:22-52 | a success is newest first and a permutation of the gathered items, and it succeeds exactly when gathering does |
| LenientRepository.FirstFailureReported | app/src/main/java/com/xdustatom/auryxgamenews/data/repository/NewsRepository.kt:27-47 | the first failing feed's exception is the result; no partial items |
| LenientRepository.GatherWithoutFailures | app/src/main/java/com/xdustatom/auryxgamenews/data/repository/NewsRepository.kt:27-47 | without failures every feed's items are appended, in feed order |
| LenientRepository.FetchNewsWithoutFailures | app/src/main/java/com/xdustatom/auryxgamenews/data/repository/NewsRepository.kt:25-50 | without failures the result is a permutation of all feeds' items, as long as their sum, and keeps feed and document order among equal dates |
| LenientRepository.FirstFeedStatus | app/src/main/java/com/xdustatom/auryxgamenews/data/repository/NewsRepository.kt:16-39 | a non-2xx answer from the first feed fails the fetch with that code and `IGN` |

## Left out

- HTTP transport (OkHttp and `HttpURLConnection`, timeouts, redirects, `use`/`disconnect`): a response is an input; `StrictRepository.Http` and `LenientRepository.Network` map a request or URL to what the server answered.
- The XML tokenizer: documents are event lists; malformed XML is the `Malformed` payload; `Text` events are assumed coalesced, and an empty element reports no text event, as `next()` does.
- FeedDocuments.LenientReadsRss: the documents the rendering lemmas cover (here and for the strict parser) are written without indentation, so they hold no whitespace-only text between tags; `next()` does report indentation as `TEXT`, and for the lenient parser such text becomes the value of a following empty element.
- StrictParser.ReadText: `nextTag` skipping whitespace-only text is not modelled, because the event lists carry no such events; a text that is not followed by a tag is the `ExpectedTag` failure.
- StrictParser.Run: a start tag that is the last event is read as the end of the document, where the tokenizer would first reject the unclosed document.
- LenientParser.HtmlToPlainText: `HtmlCompat.fromHtml` is an Android library call, so it is the `fromHtml` parameter and only the trimming after it is stated.
- Dates.ParseDate: `SimpleDateFormat` is a library call, so each pattern is tried through the `tryParse` parameter (a `null` parse and a `ParseException` are both `None`); the pattern strings are kept as constants.
- Dates.ParseDate: `Date()` is the `now` parameter of the converters, and `LenientRepository.FetchNews` passes one set of converters to every feed, so one `now` serves the whole fetch, while the code reads the clock on each fallback in `parseDate`. In the model the dateless items of all feeds therefore tie and keep feed order after the stable sort; in the program later-parsed dateless items carry later timestamps and sort first.
- Text.Trim: whitespace is the ASCII set (regex `\s` plus U+001C..U+001F for Kotlin `trim`); other Unicode whitespace is left out.
- Text.Lower: only ASCII letters are lower-cased.
- LenientRepository.LoadFeed: the exception message "HTTP <code> for <source>" is represented by the `HttpStatus(code, source)` value, not built as a string; an I/O failure while reading the body is folded into `Unreachable` or `Malformed`.
- Coroutines (`withContext`, `runCatching`): both repositories run sequential loops, modelled as recursion; `runCatching` is the `Result` return value.
- HTML entity decoding: `stripHtml` does not decode entities, so neither does the model.
- The UI, theme and activity code, which hold no pipeline logic.
