/**
 * Kotlin's `distinctBy { it.link }` on feed items: the first item with each
 * link is kept, later ones are dropped, and the kept items stay in order.
 */
module Distinct {
  import opened Models

  /** The links of `xs`. */
  function Links(xs: seq<RssItem>): (r: set<string>)
    ensures forall i :: 0 <= i < |xs| ==> xs[i].link in r
    decreases |xs|
  {
    if |xs| == 0 then {}
    else
      assert forall i :: 1 <= i < |xs| ==> xs[i] == xs[1..][i - 1];
      {xs[0].link} + Links(xs[1..])
  }

  /** Every link of `Links(xs)` is the link of an item of `xs`. */
  lemma {:induction false} LinksWitness(xs: seq<RssItem>, l: string)
    requires l in Links(xs)
    ensures exists i :: 0 <= i < |xs| && xs[i].link == l
    decreases |xs|
  {
    if xs[0].link != l {
      LinksWitness(xs[1..], l);
      var k :| 0 <= k < |xs| - 1 && xs[1..][k].link == l;
      assert xs[k + 1].link == l;
    }
  }

  lemma LinksSnoc(xs: seq<RssItem>, x: RssItem)
    ensures Links(xs + [x]) == Links(xs) + {x.link}
  {
    var ys := xs + [x];
    forall l | l in Links(ys) ensures l in Links(xs) + {x.link} {
      LinksWitness(ys, l);
      var i :| 0 <= i < |ys| && ys[i].link == l;
      if i < |xs| { assert ys[i] == xs[i]; }
    }
    forall l | l in Links(xs) + {x.link} ensures l in Links(ys) {
      if l != x.link {
        LinksWitness(xs, l);
        var i :| 0 <= i < |xs| && xs[i].link == l;
        assert ys[i] == xs[i];
      } else {
        assert ys[|xs|] == x;
      }
    }
  }

  /** No two items of `xs` share a link. */
  predicate LinksDistinct(xs: seq<RssItem>) {
    forall i, j :: 0 <= i < j < |xs| ==> xs[i].link != xs[j].link
  }

  /** The walk `distinctBy` does: keep an item when its link has not been
      seen, and remember the link. */
  function DistinctFrom(xs: seq<RssItem>, seen: set<string>): seq<RssItem>
    decreases |xs|
  {
    if |xs| == 0 then []
    else
      var x := xs[0];
      if x.link in seen then DistinctFrom(xs[1..], seen)
      else [x] + DistinctFrom(xs[1..], seen + {x.link})
  }

  /** The kept links are pairwise distinct, none of them was seen before,
      and the walk never adds items. */
  lemma {:induction false} DistinctFromDistinct(xs: seq<RssItem>, seen: set<string>)
    ensures |DistinctFrom(xs, seen)| <= |xs|
    ensures forall i :: 0 <= i < |DistinctFrom(xs, seen)| ==> DistinctFrom(xs, seen)[i].link !in seen
    ensures LinksDistinct(DistinctFrom(xs, seen))
    decreases |xs|
  {
    if |xs| > 0 {
      var x := xs[0];
      if x.link in seen {
        DistinctFromDistinct(xs[1..], seen);
      } else {
        var rest := DistinctFrom(xs[1..], seen + {x.link});
        DistinctFromDistinct(xs[1..], seen + {x.link});
        assert forall i :: 1 <= i < |[x] + rest| ==> ([x] + rest)[i] == rest[i - 1];
      }
    }
  }

  /** `distinctBy { it.link }`: no two kept items share a link. */
  function DistinctByLink(xs: seq<RssItem>): (r: seq<RssItem>)
    ensures |r| <= |xs|
    ensures LinksDistinct(r)
  {
    DistinctFromDistinct(xs, {});
    DistinctFrom(xs, {})
  }

  /** Every kept item comes from the input, and every link of the input
      that was not already seen is kept. */
  lemma {:induction false} DistinctFromContents(xs: seq<RssItem>, seen: set<string>)
    ensures forall i :: 0 <= i < |DistinctFrom(xs, seen)| ==> DistinctFrom(xs, seen)[i] in xs
    ensures Links(DistinctFrom(xs, seen)) == Links(xs) - seen
    decreases |xs|
  {
    if |xs| > 0 {
      var x := xs[0];
      var tail := xs[1..];
      assert forall y :: y in tail ==> y in xs;
      if x.link in seen {
        DistinctFromContents(tail, seen);
      } else {
        var rest := DistinctFrom(tail, seen + {x.link});
        DistinctFromContents(tail, seen + {x.link});
        assert ([x] + rest)[1..] == rest;
      }
    }
  }

  /** `distinctBy` keeps every link of the input, and only input items. */
  lemma DistinctByLinkContents(xs: seq<RssItem>)
    ensures Links(DistinctByLink(xs)) == Links(xs)
    ensures forall i :: 0 <= i < |DistinctByLink(xs)| ==> DistinctByLink(xs)[i] in xs
  {
    DistinctFromContents(xs, {});
  }

  /** The reference reading, from the back: an item is kept exactly when no
      earlier item has its link. */
  function FirstOccurrences(xs: seq<RssItem>): seq<RssItem>
    decreases |xs|
  {
    if |xs| == 0 then []
    else
      var init := xs[..|xs| - 1];
      var x := xs[|xs| - 1];
      FirstOccurrences(init) + (if x.link in Links(init) then [] else [x])
  }

  /** What appending `x` to the input of the walk adds to its output. */
  function Appended(xs: seq<RssItem>, x: RssItem, seen: set<string>): seq<RssItem> {
    if x.link in seen + Links(xs) then [] else [x]
  }

  /** The walk's next seen set after the first item. */
  function SeenAfterHead(xs: seq<RssItem>, seen: set<string>): set<string>
    requires |xs| > 0
  {
    seen + {xs[0].link}
  }

  /** The first item's link can move from the input into the seen set
      without changing what appending `x` adds. */
  lemma AppendedHead(xs: seq<RssItem>, x: RssItem, seen: set<string>)
    requires |xs| > 0
    ensures Appended(xs, x, seen) == Appended(xs[1..], x, SeenAfterHead(xs, seen))
  {
    assert Links(xs) == {xs[0].link} + Links(xs[1..]);
    assert seen + Links(xs) == SeenAfterHead(xs, seen) + Links(xs[1..]);
  }

  /** The walk on a list with a known first item. */
  lemma DistinctFromCons(y: RssItem, t: seq<RssItem>, seen: set<string>)
    ensures DistinctFrom([y] + t, seen)
         == if y.link in seen then DistinctFrom(t, seen) else [y] + DistinctFrom(t, seen + {y.link})
  {
    assert ([y] + t)[0] == y;
    assert ([y] + t)[1..] == t;
  }

  /** One inductive step of `DistinctFromSnoc`. */
  lemma DistinctFromSnocStep(xs: seq<RssItem>, x: RssItem, seen: set<string>)
    requires |xs| > 0
    requires DistinctFrom(xs[1..] + [x], SeenAfterHead(xs, seen))
          == DistinctFrom(xs[1..], SeenAfterHead(xs, seen)) + Appended(xs[1..], x, SeenAfterHead(xs, seen))
    requires DistinctFrom(xs[1..] + [x], seen) == DistinctFrom(xs[1..], seen) + Appended(xs[1..], x, seen)
    ensures DistinctFrom(xs + [x], seen) == DistinctFrom(xs, seen) + Appended(xs, x, seen)
  {
    var y := xs[0];
    var t := xs[1..];
    assert xs == [y] + t;
    assert xs + [x] == [y] + (t + [x]);
    DistinctFromCons(y, t + [x], seen);
    DistinctFromCons(y, t, seen);
    AppendedHead(xs, x, seen);
    if y.link in seen {
      assert SeenAfterHead(xs, seen) == seen;
    } else {
      var rest := DistinctFrom(t, SeenAfterHead(xs, seen));
      var tail := Appended(t, x, SeenAfterHead(xs, seen));
      assert [y] + (rest + tail) == ([y] + rest) + tail;
    }
  }

  /** Appending one item to the input of the walk. */
  lemma {:induction false} DistinctFromSnoc(xs: seq<RssItem>, x: RssItem, seen: set<string>)
    ensures DistinctFrom(xs + [x], seen) == DistinctFrom(xs, seen) + Appended(xs, x, seen)
    decreases |xs|
  {
    if |xs| == 0 {
      assert xs + [x] == [x];
      assert [x][1..] == [];
    } else {
      DistinctFromSnoc(xs[1..], x, seen);
      DistinctFromSnoc(xs[1..], x, SeenAfterHead(xs, seen));
      DistinctFromSnocStep(xs, x, seen);
    }
  }

  /** `distinctBy` keeps exactly the first item of each link, in order. */
  lemma {:induction false} DistinctIsFirstOccurrences(xs: seq<RssItem>)
    ensures DistinctByLink(xs) == FirstOccurrences(xs)
    decreases |xs|
  {
    if |xs| > 0 {
      var init := xs[..|xs| - 1];
      var x := xs[|xs| - 1];
      assert xs == init + [x];
      DistinctFromSnoc(init, x, {});
      DistinctIsFirstOccurrences(init);
      assert {} + Links(init) == Links(init);
    }
  }

  /** A list whose links are already distinct is left alone. */
  lemma {:induction false} DistinctFromKeepsDistinct(xs: seq<RssItem>, seen: set<string>)
    requires LinksDistinct(xs)
    requires forall i :: 0 <= i < |xs| ==> xs[i].link !in seen
    ensures DistinctFrom(xs, seen) == xs
    decreases |xs|
  {
    if |xs| > 0 {
      var tail := xs[1..];
      assert forall i :: 0 <= i < |tail| ==> tail[i] == xs[i + 1];
      DistinctFromKeepsDistinct(tail, seen + {xs[0].link});
    }
  }

  /** Removing duplicates twice is removing them once. */
  lemma DistinctIdempotent(xs: seq<RssItem>)
    ensures DistinctByLink(DistinctByLink(xs)) == DistinctByLink(xs)
  {
    DistinctFromKeepsDistinct(DistinctByLink(xs), {});
  }
}
