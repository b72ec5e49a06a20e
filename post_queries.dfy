/**
 * The post-listing queries of the forum: for one thread, the posts in flat
 * order (by id), in tree order (by path) or in parent-tree order (whole root
 * trees), ascending or descending, from the start or beyond a cursor post.
 *
 * Each query is a function over an in-memory posts table.  LIMIT is a natural
 * number here; a negative one is an error raised by the store, modelled where
 * the statement is run (module ThreadRepository).
 */
module PostQueries {
  import opened Wrappers
  import opened Models
  import opened Paths
  import opened Sorting
  import opened KeyOrders

  function IdKey(p: PostRow): seq<int> { [p.id] }

  function PathKey(p: PostRow): seq<int> { p.path }

  /** `ORDER BY path[1] DESC, path[2:]` written as one ascending key. */
  function RootDescKey(p: PostRow): seq<int>
  {
    if |p.path| == 0 then [] else [-p.path[0]] + p.path[1..]
  }

  /** Every row has a path; the store assigns one to each post it inserts. */
  predicate PathsAssigned(table: seq<PostRow>)
  {
    forall p :: p in table ==> |p.path| > 0
  }

  // ----- flat: ORDER BY id -----

  /** `thread = $1` and, with a cursor, `id > $2` (ascending) or `id < $2` (descending). */
  predicate InFlatWindow(p: PostRow, thread: int, since: Option<int>, desc: bool)
  {
    && p.thread == thread
    && (since.Some? ==> if desc then p.id < since.value else p.id > since.value)
  }

  function FlatCandidates(table: seq<PostRow>, thread: int, since: Option<int>, desc: bool): seq<PostRow>
  {
    Filter(table, (p: PostRow) => InFlatWindow(p, thread, since, desc))
  }

  /** The flat listing: posts of the thread beyond the cursor id, ordered by id,
      at most `limit` of them, and none skipped that should have come first. */
  function FlatPosts(table: seq<PostRow>, thread: int, since: Option<int>, desc: bool, limit: nat): (r: seq<PostRow>)
    ensures IsPage(FlatCandidates(table, thread, since, desc), ByKey(IdKey, desc), limit, r)
    ensures |r| <= limit
    ensures forall p :: p in r ==> p in table && InFlatWindow(p, thread, since, desc)
    ensures forall i, j :: 0 <= i < j < |r| ==> if desc then r[i].id >= r[j].id else r[i].id <= r[j].id
    ensures forall q, p :: q in table && InFlatWindow(q, thread, since, desc) && q !in r && p in r ==>
              if desc then q.id <= p.id else q.id >= p.id
  {
    ByKeyIsStrictWeak(IdKey, desc);
    var r := Page(FlatCandidates(table, thread, since, desc), ByKey(IdKey, desc), limit);
    FlatPageFacts(table, thread, since, desc, limit, r);
    r
  }

  lemma FlatPageFacts(table: seq<PostRow>, thread: int, since: Option<int>, desc: bool, limit: nat, r: seq<PostRow>)
    requires IsPage(FlatCandidates(table, thread, since, desc), ByKey(IdKey, desc), limit, r)
    ensures forall p :: p in r ==> p in table && InFlatWindow(p, thread, since, desc)
    ensures forall i, j :: 0 <= i < j < |r| ==> if desc then r[i].id >= r[j].id else r[i].id <= r[j].id
    ensures forall q, p :: q in table && InFlatWindow(q, thread, since, desc) && q !in r && p in r ==>
              if desc then q.id <= p.id else q.id >= p.id
  {
    var cands := FlatCandidates(table, thread, since, desc);
    forall p | p in r ensures p in cands {
      assert p in multiset(r);
    }
    forall i, j | 0 <= i < j < |r|
      ensures if desc then r[i].id >= r[j].id else r[i].id <= r[j].id
    {
      SortedByKey(r, IdKey, desc, i, j);
      SingletonPathLess(r[i].id, r[j].id);
      SingletonPathLess(r[j].id, r[i].id);
    }
    forall q, p | q in table && InFlatWindow(q, thread, since, desc) && q !in r && p in r
      ensures if desc then q.id <= p.id else q.id >= p.id
    {
      assert q in cands;
      LeftOutNotBefore(cands, ByKey(IdKey, desc), limit, r, q, p);
      ByKeyApply(IdKey, desc, q, p);
      assert IdKey(q) == [q.id] && IdKey(p) == [p.id];
      SingletonPathLess(q.id, p.id);
      SingletonPathLess(p.id, q.id);
    }
  }

  // ----- tree: ORDER BY path -----

  /** `(SELECT path FROM posts WHERE id = $2)`: the cursor post's path, looked up
      in the whole table (any thread); NULL when no post has that id. */
  function CursorPath(table: seq<PostRow>, id: int): (cp: Option<seq<int>>)
    ensures cp.Some? ==> exists p :: p in table && p.id == id && p.path == cp.value
    ensures cp.None? ==> forall p :: p in table ==> p.id != id
  {
    if table == [] then None
    else if table[0].id == id then Some(table[0].path)
    else CursorPath(table[1..], id)
  }

  /** `thread = $1` and, with a cursor path, `path > cursor` (ascending) or `path < cursor` (descending). */
  predicate InTreeWindow(p: PostRow, thread: int, cursor: Option<seq<int>>, desc: bool)
  {
    && p.thread == thread
    && (cursor.Some? ==> if desc then PathLess(p.path, cursor.value) else PathLess(cursor.value, p.path))
  }

  function TreeCandidates(table: seq<PostRow>, thread: int, cursor: Option<seq<int>>, desc: bool): seq<PostRow>
  {
    Filter(table, (p: PostRow) => InTreeWindow(p, thread, cursor, desc))
  }

  /** The tree listing: posts of the thread in path order, strictly beyond the
      cursor post's path; nothing at all when the cursor post does not exist
      (the comparison with NULL is never true). */
  function TreePosts(table: seq<PostRow>, thread: int, since: Option<int>, desc: bool, limit: nat): (r: seq<PostRow>)
    ensures since.None? ==> IsPage(TreeCandidates(table, thread, None, desc), ByKey(PathKey, desc), limit, r)
    ensures since.Some? && CursorPath(table, since.value).Some? ==>
              IsPage(TreeCandidates(table, thread, CursorPath(table, since.value), desc), ByKey(PathKey, desc), limit, r)
    ensures since.Some? && CursorPath(table, since.value).None? ==> r == []
    ensures |r| <= limit
    ensures forall p :: p in r ==> p in table && p.thread == thread
    ensures since.Some? ==> forall p :: p in r ==> InTreeWindow(p, thread, CursorPath(table, since.value), desc)
    ensures forall i, j :: 0 <= i < j < |r| ==>
              if desc then !PathLess(r[i].path, r[j].path) else !PathLess(r[j].path, r[i].path)
  {
    var cursor := if since.None? then None else CursorPath(table, since.value);
    if since.Some? && cursor.None? then []
    else
      ByKeyIsStrictWeak(PathKey, desc);
      var cands := TreeCandidates(table, thread, cursor, desc);
      var r := Page(cands, ByKey(PathKey, desc), limit);
      TreePageFacts(table, thread, cursor, desc, limit, r);
      r
  }

  lemma TreePageFacts(table: seq<PostRow>, thread: int, cursor: Option<seq<int>>, desc: bool, limit: nat, r: seq<PostRow>)
    requires IsPage(TreeCandidates(table, thread, cursor, desc), ByKey(PathKey, desc), limit, r)
    ensures forall p :: p in r ==> p in table && InTreeWindow(p, thread, cursor, desc)
    ensures forall i, j :: 0 <= i < j < |r| ==>
              if desc then !PathLess(r[i].path, r[j].path) else !PathLess(r[j].path, r[i].path)
  {
    forall p | p in r ensures p in TreeCandidates(table, thread, cursor, desc) {
      assert p in multiset(r);
    }
    forall i, j | 0 <= i < j < |r|
      ensures if desc then !PathLess(r[i].path, r[j].path) else !PathLess(r[j].path, r[i].path)
    {
      SortedByKey(r, PathKey, desc, i, j);
    }
  }

  // ----- parent tree: whole root trees, LIMIT counts roots -----

  /** `(SELECT path[1] FROM posts WHERE id = $2)`: the root id of the cursor post. */
  function CursorRoot(table: seq<PostRow>, id: int): (root: Option<int>)
    ensures root.Some? ==> exists p :: p in table && p.id == id && |p.path| > 0 && p.path[0] == root.value
  {
    match CursorPath(table, id)
    case Some(cp) => if |cp| > 0 then Some(cp[0]) else None
    case None => None
  }

  /** The rows whose `path[1]` feeds the roots CTE: rows of the thread and, with
      a cursor root, only root posts (`parent IS NULL`) whose root id lies strictly
      beyond it.  Without a cursor the CTE has no `parent IS NULL` filter. */
  predicate RootWindow(p: PostRow, thread: int, bound: Option<int>, desc: bool)
    requires |p.path| > 0
  {
    && p.thread == thread
    && (bound.Some? ==> p.parent.None? && if desc then p.path[0] < bound.value else p.path[0] > bound.value)
  }

  function RootIds(rows: seq<PostRow>): (ids: seq<int>)
    requires PathsAssigned(rows)
    ensures |ids| == |rows|
    ensures forall i :: 0 <= i < |rows| ==> ids[i] == rows[i].path[0]
  {
    seq(|rows|, i requires 0 <= i < |rows| => rows[i].path[0])
  }

  /** `SELECT path[1] FROM posts WHERE ...` before DISTINCT: one root id per row in the window. */
  function RootCandidates(table: seq<PostRow>, thread: int, bound: Option<int>, desc: bool): (ids: seq<int>)
    requires PathsAssigned(table)
    ensures forall x :: x in ids <==> exists p :: p in table && RootWindow(p, thread, bound, desc) && p.path[0] == x
  {
    var rows := Filter(table, (p: PostRow) => |p.path| > 0 && RootWindow(p, thread, bound, desc));
    var ids := RootIds(rows);
    assert forall x :: x in ids ==> exists p :: p in table && RootWindow(p, thread, bound, desc) && p.path[0] == x by {
      forall x | x in ids ensures exists p :: p in table && RootWindow(p, thread, bound, desc) && p.path[0] == x {
        var i :| 0 <= i < |ids| && ids[i] == x;
        assert rows[i] in rows;
      }
    }
    assert forall p :: p in table && RootWindow(p, thread, bound, desc) ==> p.path[0] in ids by {
      forall p | p in table && RootWindow(p, thread, bound, desc) ensures p.path[0] in ids {
        var i :| 0 <= i < |rows| && rows[i] == p;
        assert ids[i] == p.path[0];
      }
    }
    ids
  }

  function IntBefore(desc: bool, a: int, b: int): bool
  {
    if desc then a > b else a < b
  }

  predicate StrictlyOrdered(s: seq<int>, desc: bool)
  {
    forall i, j :: 0 <= i < j < |s| ==> IntBefore(desc, s[i], s[j])
  }

  function InsertDistinct(x: int, s: seq<int>, desc: bool): (r: seq<int>)
    requires StrictlyOrdered(s, desc)
    ensures StrictlyOrdered(r, desc)
    ensures forall y :: y in r <==> y in s || y == x
  {
    if s == [] then [x]
    else if x == s[0] then s
    else if IntBefore(desc, x, s[0]) then [x] + s
    else
      var tail := InsertDistinct(x, s[1..], desc);
      assert forall y :: y in s <==> y == s[0] || y in s[1..];
      forall k | 0 <= k < |tail| ensures IntBefore(desc, s[0], tail[k]) {
        assert tail[k] in tail;
        if tail[k] != x {
          var m :| 0 <= m < |s[1..]| && s[1..][m] == tail[k];
          assert s[m + 1] == tail[k];
        }
      }
      [s[0]] + tail
  }

  /** `SELECT DISTINCT ... ORDER BY`: each value once, in order. */
  function DistinctOrdered(s: seq<int>, desc: bool): (r: seq<int>)
    ensures StrictlyOrdered(r, desc)
    ensures forall y :: y in r <==> y in s
  {
    if s == [] then []
    else
      assert forall y :: y in s <==> y == s[0] || y in s[1..];
      InsertDistinct(s[0], DistinctOrdered(s[1..], desc), desc)
  }

  lemma {:induction false} StrictlyOrderedCard(s: seq<int>, desc: bool)
    requires StrictlyOrdered(s, desc)
    ensures |set x | x in s| == |s|
  {
    if s != [] {
      StrictlyOrderedCard(s[1..], desc);
      assert s[0] !in s[1..];
      assert (set x | x in s) == {s[0]} + (set x | x in s[1..]);
    }
  }

  /** `roots` answers "SELECT DISTINCT id ... ORDER BY id LIMIT limit" over the
      candidate ids: distinct candidates in order, as many as the limit allows,
      and every candidate left out lies beyond every one kept. */
  ghost predicate IsRootPage(cands: seq<int>, desc: bool, limit: nat, roots: seq<int>)
  {
    && StrictlyOrdered(roots, desc)
    && (forall x :: x in roots ==> x in cands)
    && |roots| == Min(limit, |set x | x in cands|)
    && forall x, y :: x in cands && x !in roots && y in roots ==> IntBefore(desc, y, x)
  }

  function SelectRoots(cands: seq<int>, desc: bool, limit: nat): (roots: seq<int>)
    ensures IsRootPage(cands, desc, limit, roots)
  {
    var all := DistinctOrdered(cands, desc);
    StrictlyOrderedCard(all, desc);
    assert (set x | x in all) == (set x | x in cands);
    var k := Min(limit, |all|);
    var roots := all[..k];
    forall x, y | x in cands && x !in roots && y in roots ensures IntBefore(desc, y, x) {
      var i :| 0 <= i < |all| && all[i] == x;
      var j :| 0 <= j < k && all[j] == y;
      assert k <= i;
    }
    roots
  }

  /** The roots CTE: up to `limit` distinct root ids, ordered, taken after the
      cursor root when there is a cursor; none when the cursor post is missing. */
  function ParentTreeRoots(table: seq<PostRow>, thread: int, since: Option<int>, desc: bool, limit: nat): (roots: seq<int>)
    requires PathsAssigned(table)
    ensures StrictlyOrdered(roots, desc)
    ensures |roots| <= limit
    ensures since.None? ==> IsRootPage(RootCandidates(table, thread, None, desc), desc, limit, roots)
    ensures since.Some? && CursorRoot(table, since.value).Some? ==>
              IsRootPage(RootCandidates(table, thread, CursorRoot(table, since.value), desc), desc, limit, roots)
    ensures since.Some? && CursorRoot(table, since.value).None? ==> roots == []
    ensures since.Some? ==> forall x :: x in roots ==>
              exists p :: p in table && p.thread == thread && p.parent.None? && p.path[0] == x
  {
    if since.None? then
      SelectRoots(RootCandidates(table, thread, None, desc), desc, limit)
    else
      match CursorRoot(table, since.value)
      case None => []
      case Some(b) => SelectRoots(RootCandidates(table, thread, Some(b), desc), desc, limit)
  }

  /** Ascending: `ORDER BY path`.  Descending: `ORDER BY path[1] DESC, path[2:]`. */
  function ParentTreeOrder(desc: bool): (PostRow, PostRow) -> bool
  {
    if desc then ByKey(RootDescKey, false) else ByKey(PathKey, false)
  }

  lemma ParentTreeOrderIsStrictWeak(desc: bool)
    ensures StrictWeakOrder(ParentTreeOrder(desc))
  {
    ByKeyIsStrictWeak(RootDescKey, false);
    ByKeyIsStrictWeak(PathKey, false);
  }

  /** The descending order sorts roots descending and, under one root, the rest
      of the path ascending. */
  lemma ParentTreeDescOrder(a: PostRow, b: PostRow)
    requires |a.path| > 0 && |b.path| > 0
    ensures ParentTreeOrder(true)(a, b) <==>
              a.path[0] > b.path[0] || (a.path[0] == b.path[0] && PathLess(a.path[1..], b.path[1..]))
  {
    assert ParentTreeOrder(true)(a, b) == PathLess(RootDescKey(a), RootDescKey(b));
    if a.path[0] == b.path[0] {
      SameHeadPathLess(-a.path[0], a.path[1..], b.path[1..]);
    } else {
      HeadsDecidePathLess(RootDescKey(a), RootDescKey(b));
    }
  }

  predicate InRootTrees(p: PostRow, thread: int, roots: seq<int>)
  {
    p.thread == thread && |p.path| > 0 && p.path[0] in roots
  }

  /** The parent-tree listing: every post of the thread whose root was selected
      (so a root tree is returned whole or not at all), in parent-tree order;
      LIMIT bounds the roots, not the posts. */
  function ParentTreePosts(table: seq<PostRow>, thread: int, since: Option<int>, desc: bool, limit: nat): (r: seq<PostRow>)
    requires PathsAssigned(table)
    ensures forall p :: p in r <==> p in table && InRootTrees(p, thread, ParentTreeRoots(table, thread, since, desc, limit))
    ensures forall p :: multiset(r)[p] ==
              if InRootTrees(p, thread, ParentTreeRoots(table, thread, since, desc, limit)) then multiset(table)[p] else 0
    ensures Sorted(r, ParentTreeOrder(desc))
  {
    var roots := ParentTreeRoots(table, thread, since, desc, limit);
    ParentTreeOrderIsStrictWeak(desc);
    var r := Sort(Filter(table, (p: PostRow) => InRootTrees(p, thread, roots)), ParentTreeOrder(desc));
    assert forall p :: p in r <==> p in multiset(r);
    r
  }

  /** A root tree is never split: with one post of a root tree, the listing
      holds every post of the thread under that root. */
  lemma ParentTreeNeverSplits(table: seq<PostRow>, thread: int, since: Option<int>, desc: bool, limit: nat, p: PostRow, q: PostRow)
    requires PathsAssigned(table)
    requires p in ParentTreePosts(table, thread, since, desc, limit)
    requires q in table && q.thread == thread && q.path[0] == p.path[0]
    ensures q in ParentTreePosts(table, thread, since, desc, limit)
  {
  }

  /** LIMIT bounds the number of distinct root ids in the listing. */
  lemma ParentTreeRootCount(table: seq<PostRow>, thread: int, since: Option<int>, desc: bool, limit: nat)
    requires PathsAssigned(table)
    ensures var r := ParentTreePosts(table, thread, since, desc, limit);
            |set p | p in r && |p.path| > 0 :: p.path[0]| <= limit
  {
    var r := ParentTreePosts(table, thread, since, desc, limit);
    var roots := ParentTreeRoots(table, thread, since, desc, limit);
    var ids := set p | p in r && |p.path| > 0 :: p.path[0];
    var rootSet := set x | x in roots;
    assert ids <= rootSet by {
      forall x | x in ids ensures x in rootSet {
        var p :| p in r && |p.path| > 0 && p.path[0] == x;
        assert InRootTrees(p, thread, roots);
      }
    }
    SubsetCard(ids, rootSet);
    StrictlyOrderedCard(roots, desc);
  }

  lemma {:induction false} SubsetCard<T>(a: set<T>, b: set<T>)
    requires a <= b
    ensures |a| <= |b|
  {
    if a != {} {
      var x :| x in a;
      SubsetCard(a - {x}, b - {x});
    }
  }

  /** All twelve queries: the sort type picks the family, the cursor and the
      direction pick the variant. */
  function ListPosts(table: seq<PostRow>, sort: SortType, thread: int, since: Option<int>, desc: bool, limit: nat): (r: seq<PostRow>)
    requires sort == ParentTree ==> PathsAssigned(table)
    ensures forall p :: p in r ==> p in table && p.thread == thread
    ensures sort != ParentTree ==> |r| <= limit
  {
    match sort
    case Flat => FlatPosts(table, thread, since, desc, limit)
    case Tree => TreePosts(table, thread, since, desc, limit)
    case ParentTree => ParentTreePosts(table, thread, since, desc, limit)
  }
}
