/**
 * The lenient feed parser (`data/parser/RssParser.kt`): it remembers the
 * most recent text, assigns it to a field when that field's end tag is seen
 * inside an `item`, and builds a `NewsItem` with defaults at the item's end
 * tag.  Only RSS `item` elements are recognised.
 *
 * `Run` walks the events front to back; it returns the items emitted by
 * those events, and `Final` the parser state they leave behind.
 */
module LenientParser {
  import opened Common
  import opened Text
  import opened Xml
  import opened Models
  import opened Dates

  /** The collaborators the parser calls but this model does not contain:
      the clock, `HtmlCompat.fromHtml(...).toString()`, and the date parser. */
  datatype Converters = Converters(now: Instant, fromHtml: string -> string, tryParse: DateParser)

  /** The loop's local variables: `insideItem`, `currentText` and the four
      captured fields. */
  datatype Cursor = Cursor(
    inside: bool,
    pending: Option<string>,
    title: Option<string>,
    description: Option<string>,
    link: Option<string>,
    pubDate: Option<string>)

  const Fresh: Cursor := Cursor(false, None, None, None, None, None)

  /** `name.equals("item", ignoreCase = true)`, and `lowercase(Locale.US)`
      compared with "item". */
  predicate IsItem(name: string) {
    Lower(name) == "item"
  }

  /** `htmlToPlainText`: the converter's text, trimmed. */
  function HtmlToPlainText(conv: Converters, html: string): (r: string)
    ensures IsTrimmed(r)
    ensures r == "" <==> IsBlank(conv.fromHtml(html))
  {
    Trim(conv.fromHtml(html))
  }

  /** The item built at `</item>`: `(untitled)` for a missing title, empty
      strings for a missing description or link, and the parsed date. */
  function Convert(c: Cursor, source: string, conv: Converters): (n: NewsItem)
    ensures n.source == source
    ensures c.title.Some? ==> n.title == c.title.value
    ensures c.title.None? ==> n.title == "(untitled)"
    ensures c.description.None? ==> n.description == ""
    ensures c.description.Some? ==> n.description == HtmlToPlainText(conv, c.description.value)
    ensures n.link == c.link.GetOr("")
    ensures n.pubDate == ParseDate(c.pubDate, conv.now, conv.tryParse)
  {
    NewsItem(
      c.title.GetOr("(untitled)"),
      c.description.Map(h => HtmlToPlainText(conv, h)).GetOr(""),
      c.link.GetOr(""),
      ParseDate(c.pubDate, conv.now, conv.tryParse),
      source)
  }

  /** An end tag inside an item: the field it names takes the trimmed
      pending text, `dc:date` only when no date was captured yet. */
  function Assign(c: Cursor, name: string): (r: Cursor)
    ensures r.inside == c.inside && r.pending == c.pending
    ensures r.title == (if Lower(name) == "title" then c.pending.Map(Trim) else c.title)
    ensures r.description == (if Lower(name) == "description" then c.pending.Map(Trim) else c.description)
    ensures r.link == (if Lower(name) == "link" then c.pending.Map(Trim) else c.link)
    ensures r.pubDate == (if Lower(name) == "pubdate" || (Lower(name) == "dc:date" && c.pubDate.None?)
                          then c.pending.Map(Trim) else c.pubDate)
  {
    var v := c.pending.Map(Trim);
    var n := Lower(name);
    if n == "title" then c.(title := v)
    else if n == "description" then c.(description := v)
    else if n == "link" then c.(link := v)
    else if n == "pubdate" then c.(pubDate := v)
    else if n == "dc:date" then (if c.pubDate.None? then c.(pubDate := v) else c)
    else c
  }

  /** The loop body on one event: the new state and the items emitted. */
  datatype Outcome = Outcome(cursor: Cursor, emitted: seq<NewsItem>)

  function Step(c: Cursor, e: Event, source: string, conv: Converters): (o: Outcome)
    ensures |o.emitted| <= 1
    ensures |o.emitted| == 1 <==> c.inside && e.End? && IsItem(e.name)
    ensures e.End? ==> o.cursor.pending.None?
  {
    match e
    case Start(name, _) =>
      if IsItem(name) then Outcome(c.(inside := true, title := None, description := None, link := None, pubDate := None), [])
      else Outcome(c, [])
    case Text(t) => Outcome(c.(pending := Some(t)), [])
    case End(name) =>
      if !c.inside then Outcome(c.(pending := None), [])
      else if IsItem(name) then Outcome(c.(inside := false, pending := None), [Convert(c, source, conv)])
      else Outcome(Assign(c, name).(pending := None), [])
  }

  /** The state after all of `evs`. */
  function Final(evs: seq<Event>, c: Cursor, source: string, conv: Converters): Cursor
    decreases |evs|
  {
    if |evs| == 0 then c else Final(evs[1..], Step(c, evs[0], source, conv).cursor, source, conv)
  }

  /** The items emitted by `evs`, in document order; every one carries the
      source name, and there are never more of them than events. */
  function Run(evs: seq<Event>, c: Cursor, source: string, conv: Converters): (r: seq<NewsItem>)
    ensures |r| <= |evs|
    ensures forall i :: 0 <= i < |r| ==> r[i].source == source
    decreases |evs|
  {
    if |evs| == 0 then []
    else
      var o := Step(c, evs[0], source, conv);
      o.emitted + Run(evs[1..], o.cursor, source, conv)
  }

  /** `parse(stream, sourceName)` on the events of a document. */
  function Parse(evs: seq<Event>, source: string, conv: Converters): (r: seq<NewsItem>)
    ensures |r| <= |evs|
    ensures forall i :: 0 <= i < |r| ==> r[i].source == source
  {
    Run(evs, Fresh, source, conv)
  }

  /** An `item` start tag, in any letter case, enters an item and resets the
      four fields to null; the remembered text is kept and nothing is
      emitted. */
  lemma ItemStartResets(c: Cursor, n: string, h: Option<string>, source: string, conv: Converters)
    requires IsItem(n)
    ensures Step(c, Start(n, h), source, conv)
         == Outcome(Cursor(true, c.pending, None, None, None, None), [])
  {
  }

  /** Running two pieces of a document one after the other is running the
      whole: the items of `a` come first, then those of `b` from the state
      `a` left. */
  lemma {:induction false} RunConcat(a: seq<Event>, b: seq<Event>, c: Cursor, source: string, conv: Converters)
    ensures Run(a + b, c, source, conv)
         == Run(a, c, source, conv) + Run(b, Final(a, c, source, conv), source, conv)
    ensures Final(a + b, c, source, conv) == Final(b, Final(a, c, source, conv), source, conv)
    decreases |a|
  {
    if |a| == 0 {
      assert a + b == b;
    } else {
      assert (a + b)[0] == a[0];
      assert (a + b)[1..] == a[1..] + b;
      var o := Step(c, a[0], source, conv);
      RunConcat(a[1..], b, o.cursor, source, conv);
    }
  }

  /** Whether an item is open after `evs`, read backwards: the last item
      boundary decides, and `inside0` holds when there is none. */
  function OpenAfter(evs: seq<Event>, inside0: bool): bool
    decreases |evs|
  {
    if |evs| == 0 then inside0
    else
      var e := evs[|evs| - 1];
      if e.Start? && IsItem(e.name) then true
      else if e.End? && IsItem(e.name) then false
      else OpenAfter(evs[..|evs| - 1], inside0)
  }

  /** The parser's `insideItem` is exactly "the last item boundary is a
      start tag". */
  lemma {:induction false} InsideIsOpenAfter(evs: seq<Event>, c: Cursor, source: string, conv: Converters)
    ensures Final(evs, c, source, conv).inside == OpenAfter(evs, c.inside)
    decreases |evs|
  {
    if |evs| > 0 {
      var init := evs[..|evs| - 1];
      var e := evs[|evs| - 1];
      assert evs == init + [e];
      RunConcat(init, [e], c, source, conv);
      InsideIsOpenAfter(init, c, source, conv);
      assert evs[..|evs| - 1] == init;
    }
  }

  /** The text the parser remembers after `evs`, read backwards: the last
      text event when no end tag follows it, null after an end tag, and
      `p0` when `evs` has neither. */
  function PendingAfter(evs: seq<Event>, p0: Option<string>): Option<string>
    decreases |evs|
  {
    if |evs| == 0 then p0
    else
      var e := evs[|evs| - 1];
      if e.Text? then Some(e.text)
      else if e.End? then None
      else PendingAfter(evs[..|evs| - 1], p0)
  }

  /** The parser's `currentText` is exactly the latest text not yet
      followed by an end tag. */
  lemma {:induction false} PendingIsLatestText(evs: seq<Event>, c: Cursor, source: string, conv: Converters)
    ensures Final(evs, c, source, conv).pending == PendingAfter(evs, c.pending)
    decreases |evs|
  {
    if |evs| > 0 {
      var init := evs[..|evs| - 1];
      var e := evs[|evs| - 1];
      assert evs == init + [e];
      RunConcat(init, [e], c, source, conv);
      PendingIsLatestText(init, c, source, conv);
      assert evs[..|evs| - 1] == init;
    }
  }

  /** Inside an item, the end tag of a field assigns that field the trimmed
      latest text before it (null when an end tag came after that text, or
      when there is none), changes no other field and forgets the text;
      `dc:date` does so only while no date is set. */
  lemma FieldTakesLatestText(evs: seq<Event>, n: string, c: Cursor, source: string, conv: Converters)
    requires OpenAfter(evs, c.inside)
    ensures var before := Final(evs, c, source, conv);
            var after := Final(evs + [End(n)], c, source, conv);
            var v := PendingAfter(evs, c.pending).Map(Trim);
            && (Lower(n) == "title" ==> after == before.(title := v, pending := None))
            && (Lower(n) == "description" ==> after == before.(description := v, pending := None))
            && (Lower(n) == "link" ==> after == before.(link := v, pending := None))
            && (Lower(n) == "pubdate" ==> after == before.(pubDate := v, pending := None))
            && (Lower(n) == "dc:date" ==>
                  after == (if before.pubDate.None? then before.(pubDate := v, pending := None)
                            else before.(pending := None)))
  {
    RunConcat(evs, [End(n)], c, source, conv);
    InsideIsOpenAfter(evs, c, source, conv);
    PendingIsLatestText(evs, c, source, conv);
  }

  /** An `</item>` emits exactly one item when the last item boundary
      before it is a start tag, built from the state at that point, and
      nothing otherwise. */
  lemma ItemEndEmitsWhenOpen(evs: seq<Event>, n: string, c: Cursor, source: string, conv: Converters)
    requires IsItem(n)
    ensures Run(evs + [End(n)], c, source, conv)
         == Run(evs, c, source, conv)
            + (if OpenAfter(evs, c.inside) then [Convert(Final(evs, c, source, conv), source, conv)] else [])
  {
    RunConcat(evs, [End(n)], c, source, conv);
    InsideIsOpenAfter(evs, c, source, conv);
  }

  /** Every `</item>` inside an item emits one item, so a document yields at
      most as many items as it has item end tags. */
  function CountItemEnds(evs: seq<Event>): nat {
    if |evs| == 0 then 0
    else (if evs[0].End? && IsItem(evs[0].name) then 1 else 0) + CountItemEnds(evs[1..])
  }

  lemma {:induction false} AtMostOnePerItemEnd(evs: seq<Event>, c: Cursor, source: string, conv: Converters)
    ensures |Run(evs, c, source, conv)| <= CountItemEnds(evs)
    decreases |evs|
  {
    if |evs| > 0 {
      AtMostOnePerItemEnd(evs[1..], Step(c, evs[0], source, conv).cursor, source, conv);
    }
  }

  /** Three events, one step at a time. */
  lemma FinalOfThree(e1: Event, e2: Event, e3: Event, c: Cursor, source: string, conv: Converters)
    ensures Final([e1, e2, e3], c, source, conv)
         == Step(Step(Step(c, e1, source, conv).cursor, e2, source, conv).cursor, e3, source, conv).cursor
  {
    var c1 := Step(c, e1, source, conv).cursor;
    var c2 := Step(c1, e2, source, conv).cursor;
    var c3 := Step(c2, e3, source, conv).cursor;
    assert [e1, e2, e3][1..] == [e2, e3];
    assert [e2, e3][1..] == [e3];
    assert Final([e3], c2, source, conv) == c3 by {
      assert [e3][1..] == [];
    }
    assert Final([e2, e3], c1, source, conv) == c3;
  }

  /** Two three-event elements, one after the other. */
  lemma FinalOfSix(e1: Event, e2: Event, e3: Event, e4: Event, e5: Event, e6: Event,
                   c: Cursor, source: string, conv: Converters)
    ensures Final([e1, e2, e3, e4, e5, e6], c, source, conv)
         == Final([e4, e5, e6], Final([e1, e2, e3], c, source, conv), source, conv)
  {
    assert [e1, e2, e3, e4, e5, e6] == [e1, e2, e3] + [e4, e5, e6];
    RunConcat([e1, e2, e3], [e4, e5, e6], c, source, conv);
  }

  /** A field element inside an item stores its trimmed text. */
  lemma ElementStoresTrimmed(n: string, h: Option<string>, t: string, c: Cursor, source: string, conv: Converters)
    requires c.inside && Lower(n) == "title"
    ensures Final([Start(n, h), Text(t), End(n)], c, source, conv).title == Some(Trim(t))
  {
    FinalOfThree(Start(n, h), Text(t), End(n), c, source, conv);
  }

  /** `currentText` survives a start tag: an empty `<title/>` right after
      some text takes that text, not the empty string. */
  lemma EmptyElementTakesPrecedingText(n: string, h: Option<string>, t: string, c: Cursor, source: string, conv: Converters)
    requires c.inside && Lower(n) == "title"
    ensures Final([Text(t), Start(n, h), End(n)], c, source, conv).title == Some(Trim(t))
  {
    FinalOfThree(Text(t), Start(n, h), End(n), c, source, conv);
  }

  /** After any end tag the pending text is gone: an empty `<title/>` right
      after an end tag sets the title to null. */
  lemma EmptyElementAfterEndIsNull(x: string, n: string, h: Option<string>, c: Cursor, source: string, conv: Converters)
    requires c.inside && !IsItem(x) && Lower(n) == "title"
    ensures Final([End(x), Start(n, h), End(n)], c, source, conv).title == None
  {
    FinalOfThree(End(x), Start(n, h), End(n), c, source, conv);
  }

  /** `pubDate` beats `dc:date` when `pubDate` comes first ... */
  lemma PubDateBeforeDcDate(n1: string, n2: string, a: string, b: string, c: Cursor, source: string, conv: Converters)
    requires c.inside && Lower(n1) == "pubdate" && Lower(n2) == "dc:date"
    ensures Final([Start(n1, None), Text(a), End(n1), Start(n2, None), Text(b), End(n2)], c, source, conv).pubDate
         == Some(Trim(a))
  {
    FinalOfSix(Start(n1, None), Text(a), End(n1), Start(n2, None), Text(b), End(n2), c, source, conv);
    FinalOfThree(Start(n1, None), Text(a), End(n1), c, source, conv);
    var c1 := Final([Start(n1, None), Text(a), End(n1)], c, source, conv);
    FinalOfThree(Start(n2, None), Text(b), End(n2), c1, source, conv);
  }

  /** ... and when it comes second. */
  lemma PubDateAfterDcDate(n1: string, n2: string, a: string, b: string, c: Cursor, source: string, conv: Converters)
    requires c.inside && Lower(n1) == "pubdate" && Lower(n2) == "dc:date"
    ensures Final([Start(n2, None), Text(b), End(n2), Start(n1, None), Text(a), End(n1)], c, source, conv).pubDate
         == Some(Trim(a))
  {
    FinalOfSix(Start(n2, None), Text(b), End(n2), Start(n1, None), Text(a), End(n1), c, source, conv);
    FinalOfThree(Start(n2, None), Text(b), End(n2), c, source, conv);
    var c1 := Final([Start(n2, None), Text(b), End(n2)], c, source, conv);
    FinalOfThree(Start(n1, None), Text(a), End(n1), c1, source, conv);
  }

  /** `dc:date` fills the date only while none has been captured. */
  lemma DcDateFillsMissingDate(n: string, b: string, c: Cursor, source: string, conv: Converters)
    requires c.inside && Lower(n) == "dc:date"
    ensures Final([Start(n, None), Text(b), End(n)], c, source, conv).pubDate
         == (if c.pubDate.None? then Some(Trim(b)) else c.pubDate)
  {
    FinalOfThree(Start(n, None), Text(b), End(n), c, source, conv);
  }

  /** Outside an item, end tags only drop the pending text, and nothing is
      emitted. */
  lemma EndOutsideItemIgnored(n: string, c: Cursor, source: string, conv: Converters)
    requires !c.inside
    ensures Final([End(n)], c, source, conv) == c.(pending := None)
    ensures Run([End(n)], c, source, conv) == []
  {
  }

  /** No start tag of `evs` opens an item. */
  predicate NoItemStart(evs: seq<Event>) {
    forall i :: 0 <= i < |evs| && evs[i].Start? ==> !IsItem(evs[i].name)
  }

  lemma NoItemStartConcat(a: seq<Event>, b: seq<Event>)
    requires NoItemStart(a) && NoItemStart(b)
    ensures NoItemStart(a + b)
  {
    forall i | 0 <= i < |a + b| && (a + b)[i].Start? ensures !IsItem((a + b)[i].name) {
      if i >= |a| { assert (a + b)[i] == b[i - |a|]; }
    }
  }

  /** Without an `item` start tag nothing is ever emitted: a document with
      no RSS items, such as an Atom feed, yields no news at all. */
  lemma {:induction false} NoItemNoNews(evs: seq<Event>, c: Cursor, source: string, conv: Converters)
    requires !c.inside && NoItemStart(evs)
    ensures Run(evs, c, source, conv) == []
    decreases |evs|
  {
    if |evs| > 0 {
      var tail := evs[1..];
      assert forall i :: 0 <= i < |tail| ==> tail[i] == evs[i + 1];
      NoItemNoNews(tail, Step(c, evs[0], source, conv).cursor, source, conv);
    }
  }
}
