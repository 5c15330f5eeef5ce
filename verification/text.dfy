/**
 * Character classes and the small string operations the feed code relies on:
 * Kotlin's `trim()`/`isBlank()`, ASCII lower-casing for tag names, and
 * substring search.  Only ASCII whitespace is modelled.
 */
module Text {
  import opened Common

  /** The `\s` class of a Java regular expression: space, tab, newline,
      vertical tab, form feed and carriage return. */
  predicate IsRegexSpace(c: char) {
    c == ' ' || c == '\t' || c == '\n' || c == '\U{000B}' || c == '\U{000C}' || c == '\r'
  }

  /** Kotlin's `Char.isWhitespace()` on ASCII: the `\s` class plus the four
      information separators U+001C..U+001F. */
  predicate IsWhitespace(c: char) {
    IsRegexSpace(c) || ('\U{001C}' <= c <= '\U{001F}')
  }

  /** Kotlin's `isBlank()`: every character is whitespace. */
  predicate IsBlank(s: string) {
    forall i :: 0 <= i < |s| ==> IsWhitespace(s[i])
  }

  /** Neither end of `s` is whitespace. */
  predicate IsTrimmed(s: string) {
    |s| == 0 || (!IsWhitespace(s[0]) && !IsWhitespace(s[|s| - 1]))
  }

  /** The length of the whitespace run that starts `s`. */
  function LeadingWhitespace(s: string): (n: nat)
    ensures n <= |s|
    ensures IsBlank(s[..n])
    ensures n < |s| ==> !IsWhitespace(s[n])
  {
    if |s| > 0 && IsWhitespace(s[0]) then 1 + LeadingWhitespace(s[1..]) else 0
  }

  /** The length of the whitespace run that ends `s`. */
  function TrailingWhitespace(s: string): (n: nat)
    ensures n <= |s|
    ensures IsBlank(s[|s| - n..])
    ensures n < |s| ==> !IsWhitespace(s[|s| - n - 1])
  {
    if |s| > 0 && IsWhitespace(s[|s| - 1]) then 1 + TrailingWhitespace(s[..|s| - 1]) else 0
  }

  /** Kotlin's `trim()`: the slice of `s` left after removing the whitespace
      at both ends. */
  function Trim(s: string): (r: string)
    ensures IsTrimmed(r)
    ensures LeadingWhitespace(s) + |r| <= |s|
    ensures r == s[LeadingWhitespace(s)..LeadingWhitespace(s) + |r|]
    ensures IsBlank(s[LeadingWhitespace(s) + |r|..])
    ensures r == "" <==> IsBlank(s)
  {
    var t := s[LeadingWhitespace(s)..];
    var r := t[..|t| - TrailingWhitespace(t)];
    assert |r| > 0 ==> r[0] == t[0];
    assert |t| > 0 ==> |r| > 0;
    r
  }

  /** A string whose ends are not whitespace is left alone by `Trim`. */
  lemma TrimmedIsFixpoint(s: string)
    requires IsTrimmed(s)
    ensures Trim(s) == s
  {
    assert LeadingWhitespace(s) == 0;
    assert TrailingWhitespace(s) == 0;
  }

  /** Trimming twice is trimming once. */
  lemma TrimIdempotent(s: string)
    ensures Trim(Trim(s)) == Trim(s)
  {
    TrimmedIsFixpoint(Trim(s));
  }

  /** Kotlin's `lowercase()` on one character, restricted to ASCII letters. */
  function LowerChar(c: char): char {
    if 'A' <= c <= 'Z' then (c as int + 32) as char else c
  }

  /** Kotlin's `lowercase()` (and `lowercase(Locale.US)`) on ASCII. */
  function Lower(s: string): (r: string)
    ensures |r| == |s|
    ensures forall i :: 0 <= i < |s| ==> r[i] == LowerChar(s[i])
  {
    if |s| == 0 then "" else [LowerChar(s[0])] + Lower(s[1..])
  }

  /** `pat` occurs in `s` starting at index `j`. */
  predicate OccursAt(pat: string, s: string, j: int) {
    0 <= j && j + |pat| <= |s| && s[j..j + |pat|] == pat
  }

  /** A slice of `s` that starts after its first character is a slice of
      its tail. */
  lemma SliceOfTail(s: string, a: int, b: int)
    requires 1 <= a <= b <= |s|
    ensures s[a..b] == s[1..][a - 1..b - 1]
  {
    assert forall k :: 0 <= k < b - a ==> s[a..b][k] == s[1..][a - 1..b - 1][k];
  }

  /** The first index at which `pat` occurs in `s`, if any. */
  function IndexOf(pat: string, s: string): (r: Option<nat>)
    ensures r.Some? ==> OccursAt(pat, s, r.value)
    ensures r.Some? ==> forall j :: 0 <= j < r.value ==> !OccursAt(pat, s, j)
    ensures r.None? ==> forall j :: 0 <= j <= |s| ==> !OccursAt(pat, s, j)
    decreases |s|
  {
    if |s| < |pat| then None
    else if s[..|pat|] == pat then Some(0)
    else
      var rest := IndexOf(pat, s[1..]);
      assert forall j :: 1 <= j <= |s| ==> (OccursAt(pat, s, j) <==> OccursAt(pat, s[1..], j - 1)) by {
        forall j | 1 <= j <= |s| ensures OccursAt(pat, s, j) <==> OccursAt(pat, s[1..], j - 1) {
          if j + |pat| <= |s| {
            SliceOfTail(s, j, j + |pat|);
          }
        }
      }
      match rest
      case None => None
      case Some(k) => Some(k + 1)
  }

  /** An occurrence with none before it is the one `IndexOf` finds. */
  lemma IndexOfIs(pat: string, s: string, k: nat)
    requires OccursAt(pat, s, k)
    requires forall j :: 0 <= j < k ==> !OccursAt(pat, s, j)
    ensures IndexOf(pat, s) == Some(k)
  {
  }

  /** The first occurrence of `p` in `x + (p + y)` is the one after `x`
      when `x + p` has none earlier. */
  lemma FirstOccurrenceAfter(p: string, x: string, y: string)
    requires forall j :: 0 <= j < |x| ==> !OccursAt(p, x + p, j)
    ensures IndexOf(p, x + (p + y)) == Some(|x|)
  {
    var t := x + (p + y);
    assert t[|x|..|x| + |p|] == p;
    forall j | 0 <= j < |x| ensures !OccursAt(p, t, j) {
      assert !OccursAt(p, x + p, j);
      if j + |p| <= |t| {
        assert t[j..j + |p|] == (x + p)[j..j + |p|];
      }
    }
    IndexOfIs(p, t, |x|);
  }

  /** The first index at which `c` occurs in `s`, if any. */
  function IndexOfChar(c: char, s: string): (r: Option<nat>)
    ensures r.Some? ==> r.value < |s| && s[r.value] == c
    ensures r.Some? ==> forall j :: 0 <= j < r.value ==> s[j] != c
    ensures r.None? ==> c !in s
  {
    if |s| == 0 then None
    else if s[0] == c then Some(0)
    else
      match IndexOfChar(c, s[1..])
      case None => None
      case Some(k) => Some(k + 1)
  }
}
