/**
 * Every ORDER BY of the core compares one int array per row: `id`, `path`,
 * `created`, a nickname's code points, or the parent-tree key.  ByKey turns
 * such a key into the row order `Sorting` works with, ascending or descending.
 */
module KeyOrders {
  import opened Paths
  import opened Sorting

  /** Rows ordered by the lexicographic order of their keys; `desc` flips it. */
  function ByKey<T>(key: T -> seq<int>, desc: bool): (T, T) -> bool
  {
    (a: T, b: T) => if desc then PathLess(key(b), key(a)) else PathLess(key(a), key(b))
  }

  lemma ByKeyApply<T>(key: T -> seq<int>, desc: bool, a: T, b: T)
    ensures ByKey(key, desc)(a, b) == if desc then PathLess(key(b), key(a)) else PathLess(key(a), key(b))
  {
  }

  lemma ByKeyIsStrictWeak<T(!new)>(key: T -> seq<int>, desc: bool)
    ensures StrictWeakOrder(ByKey(key, desc))
  {
    var before := ByKey(key, desc);
    forall a ensures !before(a, a) {
      PathLessIrreflexive(key(a));
    }
    forall a, b, c | before(a, b) && before(b, c) ensures before(a, c) {
      if desc {
        PathLessTransitive(key(c), key(b), key(a));
      } else {
        PathLessTransitive(key(a), key(b), key(c));
      }
    }
    forall a, b, c | before(a, c) ensures before(a, b) || before(b, c) {
      if key(a) != key(b) {
        PathLessTotal(key(a), key(b));
        if !before(a, b) {
          if desc {
            PathLessTransitive(key(c), key(a), key(b));
          } else {
            PathLessTransitive(key(b), key(a), key(c));
          }
        }
      }
    }
  }

  /** In a sequence sorted by keys, keys never decrease (ascending) or never
      increase (descending). */
  lemma SortedByKey<T>(s: seq<T>, key: T -> seq<int>, desc: bool, i: nat, j: nat)
    requires Sorted(s, ByKey(key, desc))
    requires i < j < |s|
    ensures if desc then !PathLess(key(s[i]), key(s[j])) else !PathLess(key(s[j]), key(s[i]))
  {
    assert !ByKey(key, desc)(s[j], s[i]);
  }

  /** What a page ordered by keys promises: its rows are candidates, their
      keys never go backwards, and no candidate it left out has a key ahead of
      a row it kept. */
  lemma KeyPageFacts<T>(cands: seq<T>, key: T -> seq<int>, desc: bool, limit: nat, r: seq<T>)
    requires IsPage(cands, ByKey(key, desc), limit, r)
    ensures forall p :: p in r ==> p in cands
    ensures forall i, j :: 0 <= i < j < |r| ==>
              if desc then !PathLess(key(r[i]), key(r[j])) else !PathLess(key(r[j]), key(r[i]))
    ensures forall q, p :: q in cands && q !in r && p in r ==>
              if desc then !PathLess(key(p), key(q)) else !PathLess(key(q), key(p))
  {
    forall p | p in r ensures p in cands {
      assert p in multiset(r);
    }
    forall i, j | 0 <= i < j < |r|
      ensures if desc then !PathLess(key(r[i]), key(r[j])) else !PathLess(key(r[j]), key(r[i]))
    {
      SortedByKey(r, key, desc, i, j);
    }
    forall q, p | q in cands && q !in r && p in r
      ensures if desc then !PathLess(key(p), key(q)) else !PathLess(key(q), key(p))
    {
      LeftOutNotBefore(cands, ByKey(key, desc), limit, r, q, p);
      ByKeyApply(key, desc, q, p);
    }
  }

  /** The code points of a string, so that strings compare like Postgres text
      under the "C" collation. */
  function CodePoints(s: string): (k: seq<int>)
    ensures |k| == |s|
    ensures forall i :: 0 <= i < |s| ==> k[i] == s[i] as int
  {
    seq(|s|, i requires 0 <= i < |s| => s[i] as int)
  }

  lemma CodePointsInjective(a: string, b: string)
    requires CodePoints(a) == CodePoints(b)
    ensures a == b
  {
    assert |a| == |b|;
    forall i | 0 <= i < |a| ensures a[i] == b[i] {
      assert CodePoints(a)[i] == CodePoints(b)[i];
    }
  }
}
