/**
 * `ORDER BY ... LIMIT n` over an in-memory table: a stable insertion sort over
 * a strict weak order, and the page made of the first `n` rows it yields.
 */
module Sorting {

  /** `before(a, b)` means that a sorts strictly before b.  A strict weak order is
      irreflexive and transitive, and whatever sorts before c sorts before b or
      b sorts before c (rows with equal sort keys are interchangeable). */
  ghost predicate StrictWeakOrder<T(!new)>(before: (T, T) -> bool)
  {
    && (forall a :: !before(a, a))
    && (forall a, b, c :: before(a, b) && before(b, c) ==> before(a, c))
    && (forall a, b, c :: before(a, c) ==> before(a, b) || before(b, c))
  }

  /** No row sorts strictly before a row placed ahead of it. */
  predicate Sorted<T>(s: seq<T>, before: (T, T) -> bool)
  {
    forall i, j :: 0 <= i < j < |s| ==> !before(s[j], s[i])
  }

  function Min(a: nat, b: nat): nat
  {
    if a <= b then a else b
  }

  function Insert<T(!new)>(x: T, s: seq<T>, before: (T, T) -> bool): (r: seq<T>)
    requires StrictWeakOrder(before)
    requires Sorted(s, before)
    ensures multiset(r) == multiset(s) + multiset{x}
    ensures Sorted(r, before)
  {
    if s == [] || !before(s[0], x) then
      InsertAhead(x, s, before);
      [x] + s
    else
      var tail := Insert(x, s[1..], before);
      InsertBehind(x, s, tail, before);
      [s[0]] + tail
  }

  /** A row placed ahead of rows none of which sorts before it keeps the order. */
  lemma ConsSorted<T>(h: T, t: seq<T>, before: (T, T) -> bool)
    requires Sorted(t, before)
    requires forall y :: y in t ==> !before(y, h)
    ensures Sorted([h] + t, before)
  {
    forall i, j | 0 <= i < j < |[h] + t|
      ensures !before(([h] + t)[j], ([h] + t)[i])
    {
      assert ([h] + t)[j] == t[j - 1];
      if i > 0 {
        assert ([h] + t)[i] == t[i - 1];
      }
    }
  }

  lemma InsertAhead<T(!new)>(x: T, s: seq<T>, before: (T, T) -> bool)
    requires StrictWeakOrder(before) && Sorted(s, before)
    requires s == [] || !before(s[0], x)
    ensures Sorted([x] + s, before)
  {
    forall y | y in s
      ensures !before(y, x)
    {
      var j :| 0 <= j < |s| && s[j] == y;
      assert !before(y, s[0]);
    }
    ConsSorted(x, s, before);
  }

  lemma InsertBehind<T(!new)>(x: T, s: seq<T>, tail: seq<T>, before: (T, T) -> bool)
    requires StrictWeakOrder(before) && Sorted(s, before)
    requires s != [] && before(s[0], x)
    requires multiset(tail) == multiset(s[1..]) + multiset{x} && Sorted(tail, before)
    ensures multiset([s[0]] + tail) == multiset(s) + multiset{x}
    ensures Sorted([s[0]] + tail, before)
  {
    assert s == [s[0]] + s[1..];
    forall y | y in tail
      ensures !before(y, s[0])
    {
      assert y in multiset(tail);
      if y != x {
        assert y in multiset(s[1..]);
        var j :| 0 <= j < |s[1..]| && s[1..][j] == y;
        assert s[j + 1] == y;
      }
    }
    ConsSorted(s[0], tail, before);
  }

  /** The rows of `s` in sorted order. */
  function Sort<T(!new)>(s: seq<T>, before: (T, T) -> bool): (r: seq<T>)
    requires StrictWeakOrder(before)
    ensures multiset(r) == multiset(s)
    ensures Sorted(r, before)
  {
    if s == [] then []
    else
      assert s == [s[0]] + s[1..];
      Insert(s[0], Sort(s[1..], before), before)
  }

  /** `page` is a valid answer to "ORDER BY before LIMIT limit" over the rows
      `cands`: some of those rows, in order, as many as the limit allows, and no
      row left out sorts before a row that was kept. */
  ghost predicate IsPage<T>(cands: seq<T>, before: (T, T) -> bool, limit: nat, page: seq<T>)
  {
    && multiset(page) <= multiset(cands)
    && Sorted(page, before)
    && |page| == Min(limit, |cands|)
    && forall q, p :: q in multiset(cands) - multiset(page) && p in page ==> !before(q, p)
  }

  /** The first `limit` rows of `cands` in sorted order. */
  function Page<T(!new)>(cands: seq<T>, before: (T, T) -> bool, limit: nat): (page: seq<T>)
    requires StrictWeakOrder(before)
    ensures IsPage(cands, before, limit, page)
  {
    var sorted := Sort(cands, before);
    var k := Min(limit, |cands|);
    assert |sorted| == |multiset(sorted)| == |cands|;
    SortedPrefixIsPage(cands, sorted, before, k);
    sorted[..k]
  }

  lemma SortedPrefixIsPage<T>(cands: seq<T>, sorted: seq<T>, before: (T, T) -> bool, k: nat)
    requires multiset(sorted) == multiset(cands) && Sorted(sorted, before)
    requires k <= |sorted|
    ensures multiset(sorted[..k]) <= multiset(cands)
    ensures Sorted(sorted[..k], before)
    ensures forall q, p :: q in multiset(cands) - multiset(sorted[..k]) && p in sorted[..k] ==> !before(q, p)
  {
    assert sorted == sorted[..k] + sorted[k..];
    assert multiset(cands) - multiset(sorted[..k]) == multiset(sorted[k..]);
    forall q, p | q in multiset(sorted[k..]) && p in sorted[..k]
      ensures !before(q, p)
    {
      var j :| 0 <= j < |sorted[k..]| && sorted[k..][j] == q;
      var i :| 0 <= i < k && sorted[i] == p;
      assert sorted[k + j] == q;
    }
  }

  /** A row a page left out does not sort before any row it kept. */
  lemma LeftOutNotBefore<T>(cands: seq<T>, before: (T, T) -> bool, limit: nat, page: seq<T>, q: T, p: T)
    requires IsPage(cands, before, limit, page)
    requires q in cands && q !in page && p in page
    ensures !before(q, p)
  {
    assert q in multiset(cands) - multiset(page);
  }

  /** A page shorter than its limit holds every candidate. */
  lemma ShortPageHasAll<T>(cands: seq<T>, before: (T, T) -> bool, limit: nat, page: seq<T>)
    requires IsPage(cands, before, limit, page) && |page| < limit
    ensures forall x :: x in cands ==> x in page
  {
    var rest := multiset(cands) - multiset(page);
    assert multiset(cands) == multiset(page) + rest;
    assert |rest| == 0;
    forall x | x in cands ensures x in page {
      assert x in multiset(cands);
    }
  }

  /** Keeps the rows satisfying `keep`, each as often as it occurs, in table order. */
  function Filter<T(!new)>(s: seq<T>, keep: T -> bool): (r: seq<T>)
    ensures forall x :: multiset(r)[x] == if keep(x) then multiset(s)[x] else 0
    ensures forall x :: x in r <==> x in s && keep(x)
  {
    if s == [] then []
    else
      assert s == [s[0]] + s[1..];
      if keep(s[0]) then [s[0]] + Filter(s[1..], keep) else Filter(s[1..], keep)
  }

  /** In a sorted sequence, a row that sorts before another stands ahead of it. */
  lemma SortedRespectsBefore<T(!new)>(s: seq<T>, before: (T, T) -> bool, i: nat, j: nat)
    requires StrictWeakOrder(before) && Sorted(s, before)
    requires i < |s| && j < |s| && before(s[i], s[j])
    ensures i < j
  {
  }
}
