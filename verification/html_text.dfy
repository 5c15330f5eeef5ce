/**
 * `stripHtml` of the strict feed parser: four regular-expression passes over
 * a description, applied in order.
 *   1. `<![CDATA[(.*?)]]>` (dot matches newlines) is replaced by its group;
 *   2. every `<[^>]*>` is replaced by one space;
 *   3. every `\s+` run is replaced by one space;
 *   4. the result is trimmed.
 * Each pass is a left-to-right scan, as Java's `replaceAll` performs it.
 * Entities such as `&amp;` are not decoded by any pass.
 */
module HtmlText {
  import opened Common
  import opened Text

  const CDataOpen: string := "<![CDATA["
  const CDataClose: string := "]]>"

  /** No `<` is followed, anywhere later, by a `>`: nothing in `s` has the
      shape `<[^>]*>`. */
  predicate NoTagSpan(s: string) {
    forall i, j :: 0 <= i < j < |s| && s[i] == '<' ==> s[j] != '>'
  }

  /** Every `\s` character is a plain space and no two of them are adjacent. */
  predicate SingleSpaced(s: string) {
    && (forall i :: 0 <= i < |s| && IsRegexSpace(s[i]) ==> s[i] == ' ')
    && (forall i :: 0 <= i < |s| - 1 ==> !(IsRegexSpace(s[i]) && IsRegexSpace(s[i + 1])))
  }

  /** The shape of every `stripHtml` result. */
  predicate IsPlain(s: string) {
    NoTagSpan(s) && SingleSpaced(s) && IsTrimmed(s)
  }

  /** `s` starts a CDATA section that is closed somewhere later. */
  predicate OpensCData(s: string) {
    |CDataOpen| <= |s| && s[..|CDataOpen|] == CDataOpen
    && IndexOf(CDataClose, s[|CDataOpen|..]).Some?
  }

  lemma NoTagSpanCons(c: char, r: string)
    requires NoTagSpan(r)
    requires c == '<' ==> '>' !in r
    ensures NoTagSpan([c] + r)
  {
    var s := [c] + r;
    forall i, j | 0 <= i < j < |s| && s[i] == '<' ensures s[j] != '>' {
      if i > 0 {
        assert s[i] == r[i - 1] && s[j] == r[j - 1];
      } else {
        assert s[j] == r[j - 1];
      }
    }
  }

  lemma NoTagSpanSlice(s: string, a: nat, b: nat)
    requires NoTagSpan(s)
    requires a <= b <= |s|
    ensures NoTagSpan(s[a..b])
  {
    var t := s[a..b];
    forall i, j | 0 <= i < j < |t| && t[i] == '<' ensures t[j] != '>' {
      assert t[i] == s[a + i] && t[j] == s[a + j];
    }
  }

  lemma SingleSpacedSlice(s: string, a: nat, b: nat)
    requires SingleSpaced(s)
    requires a <= b <= |s|
    ensures SingleSpaced(s[a..b])
  {
    var t := s[a..b];
    forall i | 0 <= i < |t| - 1 ensures !(IsRegexSpace(t[i]) && IsRegexSpace(t[i + 1])) {
      assert t[i] == s[a + i] && t[i + 1] == s[a + i + 1];
    }
    forall i | 0 <= i < |t| && IsRegexSpace(t[i]) ensures t[i] == ' ' {
      assert t[i] == s[a + i];
    }
  }

  /** Pass 1: each closed CDATA section is replaced by its contents, the
      contents ending at the first `]]>` (the lazy group). */
  function UnwrapCData(s: string): (r: string)
    ensures |r| <= |s|
    ensures NoTagSpan(s) ==> r == s
    decreases |s|
  {
    if |s| == 0 then ""
    else if OpensCData(s) then
      var k := IndexOf(CDataClose, s[|CDataOpen|..]).value;
      assert s[|CDataOpen| + k + 2] == '>' by {
        assert OccursAt(CDataClose, s[|CDataOpen|..], k);
        assert s[|CDataOpen|..][k + 2] == CDataClose[2];
      }
      assert s[0] == '<';
      s[|CDataOpen|..|CDataOpen| + k] + UnwrapCData(s[|CDataOpen| + k + |CDataClose|..])
    else
      assert NoTagSpan(s) ==> NoTagSpan(s[1..]) by {
        if NoTagSpan(s) { NoTagSpanSlice(s, 1, |s|); }
      }
      [s[0]] + UnwrapCData(s[1..])
  }

  /** Pass 2: each `<` that has a `>` after it, up to the first such `>`,
      becomes one space; a `<` with no `>` after it stays. */
  function ReplaceTags(s: string): (r: string)
    ensures |r| <= |s|
    decreases |s|
  {
    if |s| == 0 then ""
    else if s[0] == '<' && IndexOfChar('>', s[1..]).Some? then
      " " + ReplaceTags(s[IndexOfChar('>', s[1..]).value + 2..])
    else
      [s[0]] + ReplaceTags(s[1..])
  }

  /** Every character of `r` is a character of `s` or a space. */
  predicate CharsFrom(r: string, s: string) {
    forall i :: 0 <= i < |r| ==> r[i] in s || r[i] == ' '
  }

  lemma CharsFromCons(c: char, r: string, s: string, k: nat)
    requires k <= |s|
    requires CharsFrom(r, s[k..])
    requires c in s || c == ' '
    ensures CharsFrom([c] + r, s)
  {
    forall i | 0 <= i < |r| && r[i] in s[k..] ensures r[i] in s {
      var j :| 0 <= j < |s[k..]| && s[k..][j] == r[i];
      assert s[k + j] == r[i];
    }
  }

  lemma {:induction false} ReplaceTagsChars(s: string)
    ensures CharsFrom(ReplaceTags(s), s)
    decreases |s|
  {
    if |s| == 0 {
    } else if s[0] == '<' && IndexOfChar('>', s[1..]).Some? {
      var k := IndexOfChar('>', s[1..]).value;
      ReplaceTagsChars(s[k + 2..]);
      CharsFromCons(' ', ReplaceTags(s[k + 2..]), s, k + 2);
    } else {
      ReplaceTagsChars(s[1..]);
      CharsFromCons(s[0], ReplaceTags(s[1..]), s, 1);
    }
  }

  /** After pass 2 no tag-shaped span is left. */
  lemma {:induction false} ReplaceTagsRemovesTags(s: string)
    ensures NoTagSpan(ReplaceTags(s))
    decreases |s|
  {
    if |s| == 0 {
    } else if s[0] == '<' && IndexOfChar('>', s[1..]).Some? {
      var k := IndexOfChar('>', s[1..]).value;
      ReplaceTagsRemovesTags(s[k + 2..]);
      NoTagSpanCons(' ', ReplaceTags(s[k + 2..]));
    } else {
      var rest := ReplaceTags(s[1..]);
      ReplaceTagsRemovesTags(s[1..]);
      ReplaceTagsChars(s[1..]);
      NoTagSpanCons(s[0], rest);
    }
  }

  /** Pass 2 leaves a string without tag-shaped spans unchanged. */
  lemma {:induction false} ReplaceTagsFixpoint(s: string)
    requires NoTagSpan(s)
    ensures ReplaceTags(s) == s
    decreases |s|
  {
    if |s| > 0 {
      if s[0] == '<' && IndexOfChar('>', s[1..]).Some? {
        assert false;
      }
      NoTagSpanSlice(s, 1, |s|);
      ReplaceTagsFixpoint(s[1..]);
    }
  }

  /** The suffix of `s` after its leading `\s` run. */
  function DropSpaces(s: string): (r: string)
    ensures |r| <= |s| && r == s[|s| - |r|..]
    ensures forall i :: 0 <= i < |s| - |r| ==> IsRegexSpace(s[i])
    ensures |r| > 0 ==> !IsRegexSpace(r[0])
  {
    if |s| > 0 && IsRegexSpace(s[0]) then DropSpaces(s[1..]) else s
  }

  /** Pass 3: every maximal `\s` run becomes a single space. */
  function CollapseSpaces(s: string): (r: string)
    ensures |r| <= |s|
    ensures |s| > 0 ==> |r| > 0 && r[0] == (if IsRegexSpace(s[0]) then ' ' else s[0])
    decreases |s|
  {
    if |s| == 0 then ""
    else if IsRegexSpace(s[0]) then " " + CollapseSpaces(DropSpaces(s[1..]))
    else [s[0]] + CollapseSpaces(s[1..])
  }

  /** After pass 3 every `\s` character is a space and none are adjacent. */
  lemma {:induction false} CollapseSingleSpaced(s: string)
    ensures SingleSpaced(CollapseSpaces(s))
    decreases |s|
  {
    if |s| == 0 {
    } else if IsRegexSpace(s[0]) {
      var d := DropSpaces(s[1..]);
      CollapseSingleSpaced(d);
      var r := CollapseSpaces(s);
      var rest := CollapseSpaces(d);
      assert r == " " + rest;
      forall i | 0 <= i < |r| - 1 ensures !(IsRegexSpace(r[i]) && IsRegexSpace(r[i + 1])) {
        if i > 0 { assert r[i] == rest[i - 1] && r[i + 1] == rest[i]; }
      }
      forall i | 0 <= i < |r| && IsRegexSpace(r[i]) ensures r[i] == ' ' {
        if i > 0 { assert r[i] == rest[i - 1]; }
      }
    } else {
      CollapseSingleSpaced(s[1..]);
      var r := CollapseSpaces(s);
      var rest := CollapseSpaces(s[1..]);
      assert r == [s[0]] + rest;
      forall i | 0 <= i < |r| - 1 ensures !(IsRegexSpace(r[i]) && IsRegexSpace(r[i + 1])) {
        if i > 0 { assert r[i] == rest[i - 1] && r[i + 1] == rest[i]; }
      }
      forall i | 0 <= i < |r| && IsRegexSpace(r[i]) ensures r[i] == ' ' {
        if i > 0 { assert r[i] == rest[i - 1]; }
      }
    }
  }

  lemma {:induction false} CollapseChars(s: string)
    ensures CharsFrom(CollapseSpaces(s), s)
    decreases |s|
  {
    if |s| == 0 {
    } else if IsRegexSpace(s[0]) {
      var d := DropSpaces(s[1..]);
      CollapseChars(d);
      CharsFromCons(' ', CollapseSpaces(d), s, |s| - |d|);
    } else {
      CollapseChars(s[1..]);
      CharsFromCons(s[0], CollapseSpaces(s[1..]), s, 1);
    }
  }

  /** Pass 3 creates no tag-shaped span. */
  lemma {:induction false} CollapseKeepsNoTagSpan(s: string)
    requires NoTagSpan(s)
    ensures NoTagSpan(CollapseSpaces(s))
    decreases |s|
  {
    if |s| == 0 {
    } else if IsRegexSpace(s[0]) {
      var d := DropSpaces(s[1..]);
      NoTagSpanSlice(s, |s| - |d|, |s|);
      CollapseKeepsNoTagSpan(d);
      NoTagSpanCons(' ', CollapseSpaces(d));
    } else {
      var rest := CollapseSpaces(s[1..]);
      NoTagSpanSlice(s, 1, |s|);
      CollapseKeepsNoTagSpan(s[1..]);
      CollapseChars(s[1..]);
      NoTagSpanCons(s[0], rest);
    }
  }

  /** Pass 3 leaves a single-spaced string unchanged. */
  lemma {:induction false} CollapseFixpoint(s: string)
    requires SingleSpaced(s)
    ensures CollapseSpaces(s) == s
    decreases |s|
  {
    if |s| > 0 {
      SingleSpacedSlice(s, 1, |s|);
      CollapseFixpoint(s[1..]);
      if IsRegexSpace(s[0]) {
        if |s| > 1 { assert !IsRegexSpace(s[1]); }
        assert DropSpaces(s[1..]) == s[1..];
      }
    }
  }

  /** The characters that are not `\s`, in order. */
  function Words(s: string): (r: string)
    ensures |r| <= |s|
  {
    if |s| == 0 then ""
    else if IsRegexSpace(s[0]) then Words(s[1..])
    else [s[0]] + Words(s[1..])
  }

  lemma {:induction false} DropSpacesKeepsWords(s: string)
    ensures Words(DropSpaces(s)) == Words(s)
    decreases |s|
  {
    if |s| > 0 && IsRegexSpace(s[0]) {
      DropSpacesKeepsWords(s[1..]);
    }
  }

  /** Pass 3 only rewrites whitespace: the other characters survive, in order. */
  lemma {:induction false} CollapseKeepsWords(s: string)
    ensures Words(CollapseSpaces(s)) == Words(s)
    decreases |s|
  {
    if |s| == 0 {
    } else if IsRegexSpace(s[0]) {
      var d := DropSpaces(s[1..]);
      CollapseKeepsWords(d);
      DropSpacesKeepsWords(s[1..]);
      assert Words(" " + CollapseSpaces(d)) == Words(CollapseSpaces(d));
    } else {
      CollapseKeepsWords(s[1..]);
      assert Words([s[0]] + CollapseSpaces(s[1..])) == [s[0]] + Words(CollapseSpaces(s[1..]));
    }
  }

  /** Trimming keeps a text free of tag spans and single-spaced. */
  lemma TrimKeepsShape(c: string)
    requires NoTagSpan(c) && SingleSpaced(c)
    ensures IsPlain(Trim(c))
  {
    var r := Trim(c);
    NoTagSpanSlice(c, LeadingWhitespace(c), LeadingWhitespace(c) + |r|);
    SingleSpacedSlice(c, LeadingWhitespace(c), LeadingWhitespace(c) + |r|);
  }

  /** Passes 2 to 4 produce a plain string, whatever pass 1 left. */
  lemma PassesArePlain(u: string)
    ensures IsPlain(Trim(CollapseSpaces(ReplaceTags(u))))
  {
    var t := ReplaceTags(u);
    ReplaceTagsRemovesTags(u);
    CollapseKeepsNoTagSpan(t);
    CollapseSingleSpaced(t);
    TrimKeepsShape(CollapseSpaces(t));
  }

  /** `stripHtml`: the four passes in order.  The result holds no tag-shaped
      span, is single-spaced and has no whitespace at either end. */
  function StripHtml(s: string): (r: string)
    ensures |r| <= |s|
    ensures IsPlain(r)
  {
    PassesArePlain(UnwrapCData(s));
    Trim(CollapseSpaces(ReplaceTags(UnwrapCData(s))))
  }

  /** A plain string passes through `stripHtml` unchanged. */
  lemma StripHtmlFixpoint(s: string)
    requires IsPlain(s)
    ensures StripHtml(s) == s
  {
    ReplaceTagsFixpoint(s);
    CollapseFixpoint(s);
    TrimmedIsFixpoint(s);
  }

  /** `stripHtml` is idempotent. */
  lemma StripHtmlIdempotent(s: string)
    ensures StripHtml(StripHtml(s)) == StripHtml(s)
  {
    StripHtmlFixpoint(StripHtml(s));
  }

  /** A closed section `<![CDATA[x]]>` is replaced by `x` when `]]>` first
      occurs right after `x`; scanning resumes after the section. */
  lemma UnwrapSection(x: string, y: string)
    requires forall j :: 0 <= j < |x| ==> !OccursAt(CDataClose, x + CDataClose, j)
    ensures UnwrapCData(CDataOpen + (x + (CDataClose + y))) == x + UnwrapCData(y)
  {
    var t := x + (CDataClose + y);
    var s := CDataOpen + t;
    assert s[..|CDataOpen|] == CDataOpen;
    assert s[|CDataOpen|..] == t;
    FirstOccurrenceAfter(CDataClose, x, y);
    assert OpensCData(s);
    assert s[|CDataOpen|..|CDataOpen| + |x|] == x;
    assert s[|CDataOpen| + |x| + |CDataClose|..] == y;
  }

  /** Text without any CDATA opener is left alone by pass 1. */
  lemma {:induction false} UnwrapWithoutSections(s: string)
    requires forall j :: 0 <= j <= |s| ==> !OccursAt(CDataOpen, s, j)
    ensures UnwrapCData(s) == s
    decreases |s|
  {
    if |s| > 0 {
      assert !OccursAt(CDataOpen, s, 0);
      forall j | 0 <= j <= |s| - 1 ensures !OccursAt(CDataOpen, s[1..], j) {
        assert !OccursAt(CDataOpen, s, j + 1);
        if j + |CDataOpen| <= |s| - 1 {
          assert s[1..][j..j + |CDataOpen|] == s[j + 1..j + 1 + |CDataOpen|];
        }
      }
      UnwrapWithoutSections(s[1..]);
    }
  }

  /** Text without `<` passes through pass 2 unchanged. */
  lemma {:induction false} ReplaceTagsText(w: string, rest: string)
    requires '<' !in w
    ensures ReplaceTags(w + rest) == w + ReplaceTags(rest)
    decreases |w|
  {
    if |w| > 0 {
      assert (w + rest)[0] == w[0];
      assert (w + rest)[1..] == w[1..] + rest;
      ReplaceTagsText(w[1..], rest);
      assert w + ReplaceTags(rest) == [w[0]] + (w[1..] + ReplaceTags(rest));
    } else {
      assert w + rest == rest;
    }
  }

  /** One tag `<inner>` becomes one space. */
  lemma ReplaceTagsTag(inner: string, rest: string)
    requires '>' !in inner
    ensures ReplaceTags("<" + (inner + (">" + rest))) == " " + ReplaceTags(rest)
  {
    var s := "<" + (inner + (">" + rest));
    assert s[1..] == inner + (">" + rest);
    assert s[1..][|inner|] == '>';
    forall j | 0 <= j < |inner| ensures s[1..][j] != '>' {
      assert s[1..][j] == inner[j];
    }
    assert IndexOfChar('>', s[1..]) == Some(|inner|);
    assert s[|inner| + 2..] == rest;
  }

  /** A run of characters outside `\s` passes through pass 3 unchanged. */
  lemma {:induction false} CollapseWord(w: string, rest: string)
    requires forall i :: 0 <= i < |w| ==> !IsRegexSpace(w[i])
    ensures CollapseSpaces(w + rest) == w + CollapseSpaces(rest)
    decreases |w|
  {
    if |w| > 0 {
      assert (w + rest)[0] == w[0];
      assert (w + rest)[1..] == w[1..] + rest;
      CollapseWord(w[1..], rest);
      assert w + CollapseSpaces(rest) == [w[0]] + (w[1..] + CollapseSpaces(rest));
    } else {
      assert w + rest == rest;
    }
  }

  /** A maximal `\s` run becomes one space. */
  lemma CollapseRun(run: string, rest: string)
    requires |run| > 0 && forall i :: 0 <= i < |run| ==> IsRegexSpace(run[i])
    requires |rest| > 0 ==> !IsRegexSpace(rest[0])
    ensures CollapseSpaces(run + rest) == " " + CollapseSpaces(rest)
  {
    var s := run + rest;
    assert s[0] == run[0];
    assert DropSpaces(s[1..]) == rest by {
      DropRun(run[1..], rest);
      assert s[1..] == run[1..] + rest;
    }
  }

  lemma {:induction false} DropRun(run: string, rest: string)
    requires forall i :: 0 <= i < |run| ==> IsRegexSpace(run[i])
    requires |rest| > 0 ==> !IsRegexSpace(rest[0])
    ensures DropSpaces(run + rest) == rest
    decreases |run|
  {
    if |run| > 0 {
      assert (run + rest)[0] == run[0];
      assert (run + rest)[1..] == run[1..] + rest;
      DropRun(run[1..], rest);
    } else {
      assert run + rest == rest;
    }
  }

  /** A word: no whitespace, no markup delimiters, no `]`. */
  predicate IsWord(w: string) {
    |w| > 0 && forall i :: 0 <= i < |w| ==> !IsWhitespace(w[i]) && w[i] !in "<>]"
  }

  /** `a <tag>b</tag>`: two words around an inline element. */
  function InlineMarkup(a: string, tag: string, b: string): string {
    a + (" " + ("<" + (tag + (">" + (b + ("<" + (("/" + tag) + ">")))))))
  }

  /** A CDATA section whose contents hold inline markup, such as
      `<![CDATA[Raw <i>text</i>]]>`: the section is unwrapped before the tags
      are stripped, so only the words remain, single-spaced. */
  lemma MarkupInsideCData(a: string, tag: string, b: string)
    requires IsWord(a) && IsWord(b)
    requires '>' !in tag && ']' !in tag
    ensures StripHtml(CDataOpen + InlineMarkup(a, tag, b) + CDataClose) == a + " " + b
  {
    UnwrapMarkupSection(a, tag, b);
    ReplaceMarkupTags(a, tag, b);
    CollapseMarkupSpaces(a, b);
    TrimWords(a, b);
  }

  /** `a b ` trims to `a b`. */
  lemma TrimWords(a: string, b: string)
    requires IsWord(a) && IsWord(b)
    ensures Trim(a + (" " + (b + " "))) == a + " " + b
  {
    var u := a + " " + b;
    assert a + (" " + (b + " ")) == u + " ";
    assert IsTrimmed(u) by {
      assert u[0] == a[0];
      assert u[|u| - 1] == b[|b| - 1];
    }
    TrimTrailingSpace(u);
  }

  lemma UnwrapMarkupSection(a: string, tag: string, b: string)
    requires IsWord(a) && IsWord(b)
    requires ']' !in tag
    ensures UnwrapCData(CDataOpen + InlineMarkup(a, tag, b) + CDataClose) == InlineMarkup(a, tag, b)
  {
    var x := InlineMarkup(a, tag, b);
    assert ']' !in a && ']' !in b;
    assert ']' !in x;
    NoCloseWithoutBracket(x);
    UnwrapSection(x, "");
    assert CDataOpen + x + CDataClose == CDataOpen + (x + (CDataClose + ""));
    assert UnwrapCData("") == "";
    assert x + "" == x;
  }

  lemma NoCloseWithoutBracket(x: string)
    requires ']' !in x
    ensures forall j :: 0 <= j < |x| ==> !OccursAt(CDataClose, x + CDataClose, j)
  {
    forall j | 0 <= j < |x| ensures !OccursAt(CDataClose, x + CDataClose, j) {
      assert (x + CDataClose)[j] == x[j];
    }
  }

  /** `b</tag>` loses its closing tag to one space. */
  lemma ReplaceClosingTag(tag: string, b: string)
    requires IsWord(b)
    requires '>' !in tag
    ensures ReplaceTags(b + ("<" + (("/" + tag) + ">"))) == b + " "
  {
    var close := "/" + tag;
    assert '>' !in close;
    ReplaceTagsTag(close, "");
    assert (close + (">" + "")) == close + ">";
    assert ReplaceTags("") == "";
    assert '<' !in b;
    ReplaceTagsText(b, "<" + (close + ">"));
  }

  lemma ReplaceMarkupTags(a: string, tag: string, b: string)
    requires IsWord(a) && IsWord(b)
    requires '>' !in tag
    ensures ReplaceTags(InlineMarkup(a, tag, b)) == a + (" " + (" " + (b + " ")))
  {
    var mid := b + ("<" + (("/" + tag) + ">"));
    ReplaceClosingTag(tag, b);
    ReplaceTagsTag(tag, mid);
    assert '<' !in a + " " by {
      assert '<' !in a;
    }
    ReplaceTagsText(a + " ", "<" + (tag + (">" + mid)));
    assert InlineMarkup(a, tag, b) == (a + " ") + ("<" + (tag + (">" + mid)));
    assert (a + " ") + (" " + (b + " ")) == a + (" " + (" " + (b + " ")));
  }

  lemma CollapseMarkupSpaces(a: string, b: string)
    requires IsWord(a) && IsWord(b)
    ensures CollapseSpaces(a + (" " + (" " + (b + " ")))) == a + (" " + (b + " "))
  {
    CollapseRun(" ", "");
    assert " " + "" == " ";
    assert CollapseSpaces("") == "";
    CollapseWord(b, " ");
    var x := b + " ";
    assert x[0] == b[0];
    var s := " " + (" " + x);
    assert s[1..] == " " + x;
    DropRun(" ", x);
    assert DropSpaces(s[1..]) == x;
    assert CollapseSpaces(s) == " " + CollapseSpaces(x);
    CollapseWord(a, s);
  }

  lemma TrimTrailingSpace(u: string)
    requires |u| > 0 && IsTrimmed(u)
    ensures Trim(u + " ") == u
  {
    var s := u + " ";
    assert s[0] == u[0];
    assert LeadingWhitespace(s) == 0;
    var r := Trim(s);
    assert r == s[..|r|];
    assert r == s[..|u|] == u;
  }

  lemma RawIsWord()
    ensures IsWord("Raw")
  {
    var w := "Raw";
    assert w[0] == 'R' && w[1] == 'a' && w[2] == 'w';
  }

  lemma TextIsWord()
    ensures IsWord("text")
  {
    var w := "text";
    assert w[0] == 't' && w[1] == 'e' && w[2] == 'x' && w[3] == 't';
  }

  /** The `<![CDATA[Raw <i>text</i>]]>` example: it reduces to `Raw text`. */
  lemma CDataExample()
    ensures StripHtml(CDataOpen + InlineMarkup("Raw", "i", "text") + CDataClose) == "Raw text"
  {
    RawIsWord();
    TextIsWord();
    MarkupInsideCData("Raw", "i", "text");
  }
}
