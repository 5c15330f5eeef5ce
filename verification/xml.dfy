/**
 * The pull-parser event stream both feed parsers consume.  Tokenising the
 * bytes is outside the model: a body is either the list of events an
 * `XmlPullParser` reports (start/end document removed, adjacent text
 * coalesced) or a body the tokenizer rejects.
 */
module Xml {
  import opened Common

  /** One `next()` event.  A start tag carries its `href` attribute, the only
      attribute either parser reads. */
  datatype Event =
    | Start(name: string, href: Option<string>)
    | Text(text: string)
    | End(name: string)

  /** The events `next()` reports for `<name>text</name>`.  An element with
      no content reports no `TEXT` event at all. */
  function Element(name: string, text: string): (r: seq<Event>)
    ensures |r| == (if text == "" then 2 else 3)
    ensures r[0] == Start(name, None) && r[|r| - 1] == End(name)
    ensures forall i :: 0 <= i < |r| ==> r[i] != Text("")
    ensures text != "" ==> r[1] == Text(text)
  {
    if text == "" then [Start(name, None), End(name)] else [Start(name, None), Text(text), End(name)]
  }

  /** A response body as the tokenizer sees it. */
  datatype Payload = Document(events: seq<Event>) | Malformed
}
