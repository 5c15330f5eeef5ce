/**
 * The strict feed parser (`data/RssParser.kt`): a pull-parser loop that
 * accepts RSS `item` and Atom `entry` elements, reads field values with a
 * one-event look-ahead (`readText`), and emits an item only when its trimmed
 * title and trimmed link are both non-empty.
 *
 * The loop is modelled by recursion over the remaining events: `Run` handles
 * the event that heads its list and continues with the suffix the parser has
 * reached (`Skip`), which lies past any events `readText` consumed.
 */
module StrictParser {
  import opened Common
  import opened Text
  import opened HtmlText
  import opened Xml
  import opened Models

  /** How the strict parser reads a tag name, compared lower-cased. */
  datatype Tag = ItemTag | TitleTag | DescriptionTag | LinkTag | DateTag | OtherTag

  function Classify(name: string): (r: Tag)
    ensures r == ItemTag <==> Lower(name) == "item" || Lower(name) == "entry"
    ensures r == TitleTag <==> Lower(name) == "title"
    ensures r == DescriptionTag <==> Lower(name) == "description" || Lower(name) == "summary"
    ensures r == LinkTag <==> Lower(name) == "link"
    ensures r == DateTag <==> Lower(name) == "pubdate" || Lower(name) == "published" || Lower(name) == "updated"
  {
    var n := Lower(name);
    if n == "item" || n == "entry" then ItemTag
    else if n == "title" then TitleTag
    else if n == "description" || n == "summary" then DescriptionTag
    else if n == "link" then LinkTag
    else if n == "pubdate" || n == "published" || n == "updated" then DateTag
    else OtherTag
  }

  /** The tags whose value is captured inside an item. */
  predicate IsField(t: Tag) {
    t == TitleTag || t == DescriptionTag || t == LinkTag || t == DateTag
  }

  /** The loop's local variables: `insideItem` and the four captured fields. */
  datatype Scratch = Scratch(
    inside: bool,
    title: Option<string>,
    description: Option<string>,
    link: Option<string>,
    pubDate: Option<string>)

  const Initial: Scratch := Scratch(false, None, None, None, None)

  /** The scratch state right after an `item`/`entry` start tag. */
  const Opened: Scratch := Scratch(true, None, None, None, None)

  /** `nextTag()` found something other than a tag after a field's text. */
  datatype ParseError = ExpectedTag

  /** What `readText` returns, with the number of events the parser has
      moved past when the main loop's next `next()` is done. */
  datatype Reading = Read(text: string, consumed: nat) | NextTagFailed

  /** `readText` called on the start tag that heads `evs`: if the next event
      is text, that text is the value and `nextTag()` consumes the following
      event, which must be a tag; otherwise the value is empty and the event
      after the start tag has been consumed. */
  function ReadText(evs: seq<Event>): (r: Reading)
    requires |evs| > 0
    ensures r.Read? ==> 2 <= r.consumed <= 3
    ensures r.Read? && r.text != "" ==> 1 < |evs| && evs[1] == Text(r.text)
    ensures r.Read? && 1 < |evs| && evs[1].Text? ==> r == Read(evs[1].text, 3)
    ensures r.NextTagFailed? <==> 1 < |evs| && evs[1].Text? && (|evs| == 2 || evs[2].Text?)
    ensures !(1 < |evs| && evs[1].Text?) ==> r == Read("", 2)
  {
    if 1 < |evs| && evs[1].Text? then
      if 2 < |evs| && !evs[2].Text? then Read(evs[1].text, 3)
      else NextTagFailed
    else Read("", 2)
  }

  /** `readText` on an element gives back exactly the element's text, empty
      or not, and leaves the parser on the element's end tag. */
  lemma ReadTextOfElement(n: string, t: string, rest: seq<Event>)
    ensures ReadText(Element(n, t) + rest) == Read(t, |Element(n, t)|)
  {
    var evs := Element(n, t) + rest;
    assert evs[1] == Element(n, t)[1];
    if t != "" {
      assert evs[2] == End(n);
    }
  }

  /** Assigns a captured value to the field `t` names. */
  function Store(sc: Scratch, t: Tag, value: string): Scratch {
    match t
    case TitleTag => sc.(title := Some(value))
    case DescriptionTag => sc.(description := Some(value))
    case LinkTag => sc.(link := Some(value))
    case DateTag => sc.(pubDate := Some(value))
    case _ => sc
  }

  /** The description of an emitted item: `stripHtml` of the captured text,
      or absent when that is blank. */
  function CleanDescription(d: Option<string>): (r: Option<string>)
    ensures r.Some? ==> r.value != "" && IsPlain(r.value)
    ensures d.None? ==> r.None?
    ensures d.Some? ==> (r.None? <==> StripHtml(d.value) == "")
    ensures d.Some? && StripHtml(d.value) != "" ==> r == Some(StripHtml(d.value))
  {
    match d
    case None => None
    case Some(x) =>
      var c := StripHtml(x);
      if IsBlank(c) then None else Some(c)
  }

  /** What every emitted item satisfies. */
  predicate WellFormed(it: RssItem, source: string) {
    && it.source == source
    && it.title != "" && IsTrimmed(it.title)
    && it.link != "" && IsTrimmed(it.link)
    && (it.description.Some? ==> it.description.value != "" && IsPlain(it.description.value))
    && (it.pubDate.Some? ==> IsTrimmed(it.pubDate.value))
  }

  /** The end of an `item`/`entry`: at most one item, emitted exactly when
      the trimmed title and the trimmed link are both non-empty; it carries
      those trimmed strings, the cleaned description, the trimmed raw date
      and the source name. */
  function Emit(source: string, sc: Scratch): (r: seq<RssItem>)
    ensures |r| <= 1
    ensures |r| == 1 <==> Trim(sc.title.GetOr("")) != "" && Trim(sc.link.GetOr("")) != ""
    ensures |r| == 1 ==> WellFormed(r[0], source)
    ensures |r| == 1 ==> r[0].title == Trim(sc.title.value) && r[0].link == Trim(sc.link.value)
    ensures |r| == 1 ==> r[0].description == CleanDescription(sc.description)
    ensures |r| == 1 ==> r[0].pubDate == sc.pubDate.Map(Trim)
  {
    var t := Trim(sc.title.GetOr(""));
    var l := Trim(sc.link.GetOr(""));
    if t != "" && l != "" then
      [RssItem(t, CleanDescription(sc.description), l, sc.pubDate.Map(Trim), source)]
    else []
  }

  /** One turn of the loop: the new scratch state, the number of events
      the parser has moved past, and the items emitted. */
  datatype Step = Next(scratch: Scratch, consumed: nat, emitted: seq<RssItem>) | Failed

  /** A field start tag inside an item: its value comes from `readText`. */
  function Capture(evs: seq<Event>, sc: Scratch, t: Tag): (r: Step)
    requires |evs| > 0
    ensures r.Next? ==> 0 < r.consumed && r.emitted == []
  {
    match ReadText(evs)
    case NextTagFailed => Failed
    case Read(value, k) => Next(Store(sc, t, value), k, [])
  }

  /** The loop body on the event that heads `evs`. */
  function StrictStep(source: string, evs: seq<Event>, sc: Scratch): (r: Step)
    requires |evs| > 0
    ensures r.Next? ==> 0 < r.consumed && |r.emitted| <= 1
    ensures r.Next? ==> forall i :: 0 <= i < |r.emitted| ==> WellFormed(r.emitted[i], source)
  {
    match evs[0]
    case Text(_) => Next(sc, 1, [])
    case End(name) =>
      if Classify(name) == ItemTag then Next(sc.(inside := false), 1, Emit(source, sc))
      else Next(sc, 1, [])
    case Start(name, href) =>
      var t := Classify(name);
      if t == ItemTag then Next(Opened, 1, [])
      else if !IsField(t) || !sc.inside then Next(sc, 1, [])
      else if t == LinkTag && href.Some? then Next(sc.(link := href), 1, [])
      else Capture(evs, sc, t)
  }

  /** The events left after moving past `k` of them. */
  function Skip(evs: seq<Event>, k: nat): (r: seq<Event>)
    requires k > 0 || |evs| == 0
    ensures |r| < |evs| || |evs| == 0
  {
    if k <= |evs| then evs[k..] else []
  }

  /** The loop over the remaining events `evs`, with `acc` the items emitted
      so far.  Items are appended in document order, and every one is well
      formed. */
  function Run(source: string, evs: seq<Event>, sc: Scratch, acc: seq<RssItem>)
    : (r: Result<seq<RssItem>, ParseError>)
    ensures r.Ok? ==> acc <= r.value
    ensures r.Ok? && (forall i :: 0 <= i < |acc| ==> WellFormed(acc[i], source)) ==>
              forall i :: 0 <= i < |r.value| ==> WellFormed(r.value[i], source)
    decreases |evs|
  {
    if |evs| == 0 then Ok(acc)
    else
      match StrictStep(source, evs, sc)
      case Failed => Err(ExpectedTag)
      case Next(sc', k, out) =>
        var r := Run(source, Skip(evs, k), sc', acc + out);
        assert r.Ok? ==> acc <= acc + out <= r.value;
        assert r.Ok? && (forall i :: 0 <= i < |acc| ==> WellFormed(acc[i], source)) ==>
          forall i :: 0 <= i < |acc + out| ==> WellFormed((acc + out)[i], source);
        r
  }

  /** `parse(sourceName, input)`: every emitted item is well formed. */
  function Parse(source: string, evs: seq<Event>): (r: Result<seq<RssItem>, ParseError>)
    ensures r.Ok? ==> forall i :: 0 <= i < |r.value| ==> WellFormed(r.value[i], source)
  {
    Run(source, evs, Initial, [])
  }

  /** An `item` or `entry` start tag, in any letter case, enters item mode
      with all four fields reset, whatever was captured before. */
  lemma ItemStartResets(source: string, n: string, h: Option<string>, rest: seq<Event>,
                        sc: Scratch, acc: seq<RssItem>)
    requires Classify(n) == ItemTag
    ensures Run(source, [Start(n, h)] + rest, sc, acc) == Run(source, rest, Opened, acc)
  {
    assert ([Start(n, h)] + rest)[1..] == rest;
    assert acc + [] == acc;
  }

  /** Field tags outside an item change nothing and consume only themselves. */
  lemma FieldOutsideItemIgnored(source: string, n: string, h: Option<string>, rest: seq<Event>,
                                sc: Scratch, acc: seq<RssItem>)
    requires IsField(Classify(n)) && !sc.inside
    ensures Run(source, [Start(n, h)] + rest, sc, acc) == Run(source, rest, sc, acc)
  {
    assert ([Start(n, h)] + rest)[1..] == rest;
    assert acc + [] == acc;
  }

  /** A field element `<n>t</n>` inside an item stores `t`, replacing any
      earlier value of that field; an empty element stores "". */
  lemma ElementStores(source: string, n: string, t: string, rest: seq<Event>, sc: Scratch, acc: seq<RssItem>)
    requires sc.inside && IsField(Classify(n))
    ensures Run(source, Element(n, t) + rest, sc, acc)
         == Run(source, rest, Store(sc, Classify(n), t), acc)
  {
    var evs := Element(n, t) + rest;
    assert evs[0] == Start(n, None);
    ReadTextOfElement(n, t, rest);
    assert Skip(evs, |Element(n, t)|) == rest;
    assert acc + [] == acc;
  }

  /** Inside an item, a later element of the same field, under the same name
      or an alias (`description`/`summary`, `pubDate`/`published`/`updated`),
      overwrites the earlier value. */
  lemma LaterAliasWins(source: string, n1: string, n2: string, a: string, b: string,
                       rest: seq<Event>, sc: Scratch, acc: seq<RssItem>)
    requires sc.inside && IsField(Classify(n1)) && Classify(n2) == Classify(n1)
    ensures Run(source, Element(n1, a) + (Element(n2, b) + rest), sc, acc)
         == Run(source, rest, Store(sc, Classify(n1), b), acc)
  {
    var second := Element(n2, b) + rest;
    ElementStores(source, n1, a, second, sc, acc);
    ElementStores(source, n2, b, rest, Store(sc, Classify(n1), a), acc);
    assert Store(Store(sc, Classify(n1), a), Classify(n1), b) == Store(sc, Classify(n1), b);
  }

  /** Text met by the loop itself is skipped. */
  lemma TextSkipped(source: string, t: string, rest: seq<Event>, sc: Scratch, acc: seq<RssItem>)
    ensures Run(source, [Text(t)] + rest, sc, acc) == Run(source, rest, sc, acc)
  {
    assert acc + [] == acc;
    assert ([Text(t)] + rest)[1..] == rest;
  }

  /** An end tag other than `item`/`entry` is skipped. */
  lemma OtherEndSkipped(source: string, n: string, rest: seq<Event>, sc: Scratch, acc: seq<RssItem>)
    requires Classify(n) != ItemTag
    ensures Run(source, [End(n)] + rest, sc, acc) == Run(source, rest, sc, acc)
  {
    assert acc + [] == acc;
    assert ([End(n)] + rest)[1..] == rest;
  }

  /** Inside an item, a `link` start tag with an `href` stores the
      attribute and consumes only itself. */
  lemma HrefStored(source: string, n: string, h: string, rest: seq<Event>, sc: Scratch, acc: seq<RssItem>)
    requires sc.inside && Classify(n) == LinkTag
    ensures Run(source, [Start(n, Some(h))] + rest, sc, acc) == Run(source, rest, sc.(link := Some(h)), acc)
  {
    assert acc + [] == acc;
    assert ([Start(n, Some(h))] + rest)[1..] == rest;
  }

  /** A `link` start tag with an `href` attribute takes the attribute; the
      element's text is then ignored. */
  lemma LinkPrefersHref(source: string, n: string, h: string, t: string, rest: seq<Event>,
                        sc: Scratch, acc: seq<RssItem>)
    requires sc.inside && Classify(n) == LinkTag
    ensures Run(source, [Start(n, Some(h)), Text(t), End(n)] + rest, sc, acc)
         == Run(source, rest, sc.(link := Some(h)), acc)
  {
    var sc' := sc.(link := Some(h));
    assert [Start(n, Some(h)), Text(t), End(n)] + rest == [Start(n, Some(h))] + ([Text(t)] + ([End(n)] + rest));
    HrefStored(source, n, h, [Text(t)] + ([End(n)] + rest), sc, acc);
    TextSkipped(source, t, [End(n)] + rest, sc', acc);
    OtherEndSkipped(source, n, rest, sc', acc);
  }

  /** The `item`/`entry` end tag leaves item mode and appends what `Emit`
      yields for the captured fields. */
  lemma ItemEndEmits(source: string, n: string, rest: seq<Event>, sc: Scratch, acc: seq<RssItem>)
    requires Classify(n) == ItemTag
    ensures Run(source, [End(n)] + rest, sc, acc) == Run(source, rest, sc.(inside := false), acc + Emit(source, sc))
  {
    var evs := [End(n)] + rest;
    assert evs[0] == End(n);
    assert StrictStep(source, evs, sc) == Next(sc.(inside := false), 1, Emit(source, sc));
    assert Skip(evs, 1) == rest;
  }
}
