/**
 * Kotlin's `sortByDescending { it.pubDate }` on news items: newest first,
 * and stable, so items with the same instant keep their relative order.
 * The sort is modelled as an insertion sort; `WithDate` is the reference
 * that stability is stated against.
 */
module DateSort {
  import opened Models

  /** Newest first. */
  predicate SortedDesc(xs: seq<NewsItem>) {
    forall i, j :: 0 <= i < j < |xs| ==> xs[i].pubDate >= xs[j].pubDate
  }

  /** The items of `xs` published at instant `d`, in their order in `xs`. */
  function WithDate(xs: seq<NewsItem>, d: int): seq<NewsItem>
    decreases |xs|
  {
    if |xs| == 0 then []
    else (if xs[0].pubDate == d then [xs[0]] else []) + WithDate(xs[1..], d)
  }

  /** Puts `x` in front of the first item that is not newer than it, so an
      item taken from earlier in the input stays ahead of equal ones. */
  function Insert(x: NewsItem, ys: seq<NewsItem>): (r: seq<NewsItem>)
    ensures |r| == |ys| + 1
    ensures multiset(r) == multiset(ys) + multiset{x}
    ensures r[0] == x || (|ys| > 0 && r[0] == ys[0])
    ensures SortedDesc(ys) ==> SortedDesc(r)
    decreases |ys|
  {
    if |ys| == 0 then [x]
    else if ys[0].pubDate <= x.pubDate then [x] + ys
    else
      var rest := Insert(x, ys[1..]);
      assert ys == [ys[0]] + ys[1..];
      assert SortedDesc(ys) ==> SortedDesc([ys[0]] + rest) by {
        if SortedDesc(ys) {
          assert SortedDesc(ys[1..]);
          assert rest[0].pubDate <= ys[0].pubDate;
        }
      }
      [ys[0]] + rest
  }

  /** `sortByDescending { it.pubDate }`: newest first, and a permutation of
      the input. */
  function SortByDateDesc(xs: seq<NewsItem>): (r: seq<NewsItem>)
    ensures |r| == |xs|
    ensures SortedDesc(r)
    ensures multiset(r) == multiset(xs)
    decreases |xs|
  {
    if |xs| == 0 then []
    else
      assert xs == [xs[0]] + xs[1..];
      Insert(xs[0], SortByDateDesc(xs[1..]))
  }

  /** `WithDate` on a list with a known first item. */
  lemma WithDateCons(y: NewsItem, rest: seq<NewsItem>, d: int)
    ensures WithDate([y] + rest, d) == Dated(y, d) + WithDate(rest, d)
  {
    assert ([y] + rest)[0] == y;
    assert ([y] + rest)[1..] == rest;
  }

  /** The items of `x` alone that have date `d`. */
  function Dated(x: NewsItem, d: int): seq<NewsItem> {
    if x.pubDate == d then [x] else []
  }

  /** `Insert` passes an item newer than `x`. */
  lemma InsertPasses(x: NewsItem, ys: seq<NewsItem>)
    requires |ys| > 0 && ys[0].pubDate > x.pubDate
    ensures Insert(x, ys) == [ys[0]] + Insert(x, ys[1..])
  {
  }

  /** Putting a newer item `y` in front of a list whose dated items start
      with those of `x`. */
  lemma ConsNewer(y: NewsItem, x: NewsItem, rest: seq<NewsItem>, w: seq<NewsItem>, d: int)
    requires y.pubDate > x.pubDate
    requires WithDate(rest, d) == Dated(x, d) + w
    ensures WithDate([y] + rest, d) == Dated(x, d) + (Dated(y, d) + w)
  {
    WithDateCons(y, rest, d);
    if x.pubDate == d {
      assert Dated(y, d) == [];
      assert [] + ([x] + w) == [x] + ([] + w);
    } else {
      assert Dated(x, d) == [];
      assert Dated(y, d) + ([] + w) == [] + (Dated(y, d) + w);
    }
  }

  /** The step of `InsertWithDate` where `x` goes behind the first item. */
  lemma InsertBehind(x: NewsItem, ys: seq<NewsItem>, d: int)
    requires |ys| > 0 && ys[0].pubDate > x.pubDate
    requires WithDate(Insert(x, ys[1..]), d) == Dated(x, d) + WithDate(ys[1..], d)
    ensures WithDate(Insert(x, ys), d) == Dated(x, d) + WithDate(ys, d)
  {
    InsertPasses(x, ys);
    ConsNewer(ys[0], x, Insert(x, ys[1..]), WithDate(ys[1..], d), d);
  }

  /** Inserting into a sorted list puts `x` ahead of the items with its
      date and leaves the other dates alone. */
  lemma {:induction false} InsertWithDate(x: NewsItem, ys: seq<NewsItem>, d: int)
    requires SortedDesc(ys)
    ensures WithDate(Insert(x, ys), d) == Dated(x, d) + WithDate(ys, d)
    decreases |ys|
  {
    if |ys| > 0 && ys[0].pubDate > x.pubDate {
      assert SortedDesc(ys[1..]);
      InsertWithDate(x, ys[1..], d);
      InsertBehind(x, ys, d);
    } else {
      assert Insert(x, ys) == [x] + ys;
      WithDateCons(x, ys, d);
    }
  }

  /** The sort is stable: for every instant, the items with that instant
      appear in the order they had in the input. */
  lemma {:induction false} SortIsStable(xs: seq<NewsItem>, d: int)
    ensures WithDate(SortByDateDesc(xs), d) == WithDate(xs, d)
    decreases |xs|
  {
    if |xs| > 0 {
      SortIsStable(xs[1..], d);
      InsertWithDate(xs[0], SortByDateDesc(xs[1..]), d);
    }
  }

  /** Every item of `WithDate(xs, d)` is an item of `xs` with date `d`. */
  lemma {:induction false} WithDateMembers(xs: seq<NewsItem>, d: int)
    ensures forall y :: y in WithDate(xs, d) ==> y in xs && y.pubDate == d
    decreases |xs|
  {
    if |xs| > 0 {
      WithDateMembers(xs[1..], d);
      assert forall y :: y in xs[1..] ==> y in xs;
    }
  }

  /** Lists that agree on the items of every instant are both empty or
      both non-empty. */
  lemma NonEmptyAgree(a: seq<NewsItem>, b: seq<NewsItem>)
    requires |a| > 0
    requires forall d :: WithDate(a, d) == WithDate(b, d)
    ensures |b| > 0
  {
    assert WithDate(a, a[0].pubDate) != [];
  }

  /** Two newest-first lists that agree on the items of every instant are
      the same list. */
  lemma {:induction false} SortedUnique(a: seq<NewsItem>, b: seq<NewsItem>)
    requires SortedDesc(a) && SortedDesc(b)
    requires forall d :: WithDate(a, d) == WithDate(b, d)
    ensures a == b
    decreases |a| + |b|
  {
    if |a| > 0 {
      NonEmptyAgree(a, b);
    }
    if |b| > 0 {
      NonEmptyAgree(b, a);
    }
    if |a| > 0 {
      var m := a[0].pubDate;
      var n := b[0].pubDate;
      assert m == n by {
        WithDateMembers(b, m);
        assert a[0] in WithDate(a, m);
        var y := a[0];
        assert y in b;
        var k :| 0 <= k < |b| && b[k] == y;
        assert n >= m;
        WithDateMembers(a, n);
        assert b[0] in WithDate(b, n);
        var z := b[0];
        assert z in a;
        var j :| 0 <= j < |a| && a[j] == z;
        assert m >= n;
      }
      assert WithDate(a, m) == [a[0]] + WithDate(a[1..], m);
      assert WithDate(b, m) == [b[0]] + WithDate(b[1..], m);
      assert WithDate(a, m) == WithDate(b, m);
      assert WithDate(a, m)[0] == a[0] && WithDate(b, m)[0] == b[0];
      assert a[0] == b[0];
      forall d
        ensures WithDate(a[1..], d) == WithDate(b[1..], d)
      {
        if d == m {
          assert WithDate(a, m)[1..] == WithDate(a[1..], m);
          assert WithDate(b, m)[1..] == WithDate(b[1..], m);
        } else {
          assert WithDate(a, d) == WithDate(a[1..], d);
          assert WithDate(b, d) == WithDate(b[1..], d);
        }
      }
      assert SortedDesc(a[1..]);
      assert SortedDesc(b[1..]);
      SortedUnique(a[1..], b[1..]);
      assert a == [a[0]] + a[1..];
      assert b == [b[0]] + b[1..];
    }
  }

  /** The sort is the only stable newest-first arrangement of its input:
      any list that is newest first and keeps, for every instant, the input
      order of that instant's items, is `SortByDateDesc(xs)`. */
  lemma StableSortIsUnique(xs: seq<NewsItem>, s: seq<NewsItem>)
    requires SortedDesc(s)
    requires forall d :: WithDate(s, d) == WithDate(xs, d)
    ensures s == SortByDateDesc(xs)
  {
    forall d ensures WithDate(s, d) == WithDate(SortByDateDesc(xs), d) {
      SortIsStable(xs, d);
    }
    SortedUnique(s, SortByDateDesc(xs));
  }

  /** Sorting a list that is already newest first changes nothing. */
  lemma SortKeepsSorted(xs: seq<NewsItem>)
    requires SortedDesc(xs)
    ensures SortByDateDesc(xs) == xs
  {
    StableSortIsUnique(xs, xs);
  }
}
