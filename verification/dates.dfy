/**
 * `parseDate` of the lenient parser (`data/parser/RssParser.kt`): a blank or
 * missing date becomes "now"; otherwise the first of five date patterns that
 * parses the text wins, and "now" is the fallback when none does.
 *
 * The clock and `SimpleDateFormat` are parameters: `now` is the instant the
 * caller read, and a `DateParser` answers, for one pattern and one text,
 * either the parsed instant or `None` when the parse throws.
 */
module Dates {
  import opened Common
  import opened Text

  /** An instant, in milliseconds since the epoch, as `Date` holds it. */
  type Instant = int

  /** `SimpleDateFormat(pattern, Locale.US).parse(raw)`, or `None` when it
      throws `ParseException`. */
  type DateParser = (string, string) -> Option<Instant>

  /** The patterns, in the order they are tried. */
  const Patterns: seq<string> := [
    "EEE, dd MMM yyyy HH:mm:ss Z",
    "EEE, dd MMM yyyy HH:mm Z",
    "yyyy-MM-dd'T'HH:mm:ssXXX",
    "yyyy-MM-dd'T'HH:mm:ss'Z'",
    "yyyy-MM-dd HH:mm:ss"
  ]

  /** `tryParse` fails on every pattern before index `i`. */
  predicate FailsBefore(patterns: seq<string>, i: nat, raw: string, tryParse: DateParser)
    requires i <= |patterns|
  {
    forall j :: 0 <= j < i ==> tryParse(patterns[j], raw).None?
  }

  /** The `for (pattern in formats)` loop: the result of the first pattern
      that parses `raw`, if one does. */
  function FirstParse(patterns: seq<string>, raw: string, tryParse: DateParser): (r: Option<Instant>)
    ensures r.None? <==> FailsBefore(patterns, |patterns|, raw, tryParse)
    ensures r.Some? ==> exists i :: 0 <= i < |patterns| && FailsBefore(patterns, i, raw, tryParse)
                                    && tryParse(patterns[i], raw) == r
  {
    if |patterns| == 0 then None
    else
      match tryParse(patterns[0], raw)
      case Some(d) =>
        assert FailsBefore(patterns, 0, raw, tryParse);
        Some(d)
      case None =>
        var r := FirstParse(patterns[1..], raw, tryParse);
        assert FailsBefore(patterns, |patterns|, raw, tryParse) <==> FailsBefore(patterns[1..], |patterns| - 1, raw, tryParse);
        assert r.Some? ==> exists i :: 0 <= i < |patterns| && FailsBefore(patterns, i, raw, tryParse)
                                       && tryParse(patterns[i], raw) == r by {
          if r.Some? {
            var i :| 0 <= i < |patterns| - 1 && FailsBefore(patterns[1..], i, raw, tryParse)
                     && tryParse(patterns[1..][i], raw) == r;
            assert FailsBefore(patterns, i + 1, raw, tryParse);
          }
        }
        r
  }

  /** `parseDate(raw)`: `now` for a missing or blank date, otherwise the
      first pattern's parse that succeeds, and `now` when all five fail. */
  function ParseDate(raw: Option<string>, now: Instant, tryParse: DateParser): (d: Instant)
    ensures raw.None? || IsBlank(raw.value) ==> d == now
    ensures raw.Some? && !IsBlank(raw.value) && FailsBefore(Patterns, |Patterns|, raw.value, tryParse) ==> d == now
    ensures raw.Some? && !IsBlank(raw.value) && !FailsBefore(Patterns, |Patterns|, raw.value, tryParse) ==>
              exists i :: 0 <= i < |Patterns| && FailsBefore(Patterns, i, raw.value, tryParse)
                          && tryParse(Patterns[i], raw.value) == Some(d)
  {
    match raw
    case None => now
    case Some(s) =>
      if IsBlank(s) then now
      else FirstParse(Patterns, s, tryParse).GetOr(now)
  }

  /** The first pattern wins: when the RFC 822 pattern with seconds parses
      the text, its instant is the answer whatever the later patterns say. */
  lemma FirstPatternWins(raw: string, now: Instant, tryParse: DateParser, d: Instant)
    requires !IsBlank(raw) && tryParse(Patterns[0], raw) == Some(d)
    ensures ParseDate(Some(raw), now, tryParse) == d
  {
  }

  /** A date no pattern accepts falls back to `now`, and so does a blank one,
      whatever the date parser would have said about it. */
  lemma UnparsableIsNow(raw: string, now: Instant, tryParse: DateParser)
    requires forall p :: tryParse(p, raw).None?
    ensures ParseDate(Some(raw), now, tryParse) == now
  {
  }
}
