/**
 * Materialized paths and the way Postgres compares them.
 *
 * A post's path is the array of its ancestors' ids followed by its own id.
 * Postgres compares two int arrays element by element; when one is a proper
 * prefix of the other, the shorter one sorts first.  That order is what makes
 * `ORDER BY path` a depth-first traversal of a reply forest.
 */
module Paths {

  /** Strict lexicographic order on int arrays, proper prefix first. */
  predicate PathLess(a: seq<int>, b: seq<int>)
  {
    if |a| == 0 then |b| > 0
    else if |b| == 0 then false
    else a[0] < b[0] || (a[0] == b[0] && PathLess(a[1..], b[1..]))
  }

  /** One-element arrays compare as their elements do. */
  lemma SingletonPathLess(x: int, y: int)
    ensures PathLess([x], [y]) <==> x < y
  {
    assert [x][1..] == [] && [y][1..] == [];
  }

  lemma {:induction false} PathLessIrreflexive(a: seq<int>)
    ensures !PathLess(a, a)
  {
    if |a| > 0 {
      PathLessIrreflexive(a[1..]);
    }
  }

  lemma {:induction false} PathLessTransitive(a: seq<int>, b: seq<int>, c: seq<int>)
    requires PathLess(a, b) && PathLess(b, c)
    ensures PathLess(a, c)
  {
    if |a| > 0 && |b| > 0 && |c| > 0 && a[0] == b[0] == c[0] {
      PathLessTransitive(a[1..], b[1..], c[1..]);
    }
  }

  /** Any two different arrays are ordered one way or the other. */
  lemma {:induction false} PathLessTotal(a: seq<int>, b: seq<int>)
    requires a != b
    ensures PathLess(a, b) || PathLess(b, a)
  {
    if |a| > 0 && |b| > 0 && a[0] == b[0] {
      assert a == [a[0]] + a[1..] && b == [b[0]] + b[1..];
      PathLessTotal(a[1..], b[1..]);
    }
  }

  /** A proper prefix sorts before every extension of it. */
  lemma {:induction false} PrefixPathLess(a: seq<int>, b: seq<int>)
    requires |a| < |b| && a == b[..|a|]
    ensures PathLess(a, b)
  {
    if |a| > 0 {
      assert a[1..] == b[1..][..|a| - 1];
      PrefixPathLess(a[1..], b[1..]);
    }
  }

  /** Both arrays start with the same element: the order is decided by the rest. */
  lemma SameHeadPathLess(x: int, a: seq<int>, b: seq<int>)
    ensures PathLess([x] + a, [x] + b) <==> PathLess(a, b)
  {
    assert ([x] + a)[1..] == a && ([x] + b)[1..] == b;
  }

  /** The arrays start with different elements: the heads decide. */
  lemma HeadsDecidePathLess(a: seq<int>, b: seq<int>)
    requires |a| > 0 && |b| > 0 && a[0] != b[0]
    ensures PathLess(a, b) <==> a[0] < b[0]
  {
  }
}
