/**
 * The posts table as the store keeps it.  The path of a post is assigned once,
 * when the post is inserted, by the store itself: a root post gets `[id]`, a
 * reply gets its parent's path followed by its own id, and the parent must be
 * a post of the same thread.  That rule is the invariant TreeShaped; the lemmas
 * below are what the listings get out of it.
 */
module PostStore {
  import opened Wrappers
  import opened Models
  import opened Paths
  import opened Sorting
  import opened KeyOrders
  import opened PostQueries
  import opened InsertText
  import opened Driver

  /** `id` is the primary key. */
  predicate UniqueIds(table: seq<PostRow>)
  {
    forall i, j :: 0 <= i < |table| && 0 <= j < |table| && table[i].id == table[j].id ==> i == j
  }

  /** The path of `p` is where its parent says it is. */
  ghost predicate WellPlaced(table: seq<PostRow>, p: PostRow)
  {
    match p.parent
    case None => p.path == [p.id]
    case Some(pid) => exists q :: q in table && q.id == pid && q.thread == p.thread && p.path == q.path + [p.id]
  }

  /** The store invariant: unique ids, every path placed by its parent. */
  ghost predicate TreeShaped(table: seq<PostRow>)
  {
    && UniqueIds(table)
    && forall p :: p in table ==> WellPlaced(table, p)
  }

  /** Two rows that sit at the same place in the reply tree. */
  predicate SamePlace(a: PostRow, b: PostRow)
  {
    a.id == b.id && a.path == b.path && a.parent == b.parent && a.thread == b.thread
  }

  /** Changing rows without moving any of them keeps the table tree-shaped. */
  lemma SamePlacesKeepTreeShape(table: seq<PostRow>, after: seq<PostRow>)
    requires TreeShaped(table) && |after| == |table|
    requires forall i :: 0 <= i < |table| ==> SamePlace(after[i], table[i])
    ensures TreeShaped(after)
  {
    forall p | p in after ensures WellPlaced(after, p) {
      var i :| 0 <= i < |after| && after[i] == p;
      assert table[i] in table;
      if p.parent.Some? {
        var q :| q in table && q.id == p.parent.value && q.thread == p.thread && table[i].path == q.path + [table[i].id];
        var j :| 0 <= j < |table| && table[j] == q;
        assert after[j] in after;
      }
    }
  }

  lemma SameIdSameRow(table: seq<PostRow>, p: PostRow, q: PostRow)
    requires UniqueIds(table) && p in table && q in table && p.id == q.id
    ensures p == q
  {
    var i :| 0 <= i < |table| && table[i] == p;
    var j :| 0 <= j < |table| && table[j] == q;
  }

  /** Every post's path ends with its own id and starts with the id of a root
      post of the same thread. */
  lemma {:induction false} RootOf(table: seq<PostRow>, p: PostRow)
    requires TreeShaped(table) && p in table
    ensures |p.path| > 0 && p.path[|p.path| - 1] == p.id
    ensures exists r :: r in table && r.parent.None? && r.thread == p.thread && r.id == p.path[0] && r.path == [r.id]
    decreases |p.path|
  {
    assert WellPlaced(table, p);
    match p.parent
    case None =>
    case Some(pid) =>
      var q :| q in table && q.id == pid && q.thread == p.thread && p.path == q.path + [p.id];
      RootOf(table, q);
      assert p.path[0] == q.path[0];
  }

  lemma TreeShapedPathsAssigned(table: seq<PostRow>)
    requires TreeShaped(table)
    ensures PathsAssigned(table)
  {
    forall p | p in table ensures |p.path| > 0 {
      RootOf(table, p);
    }
  }

  /** A post whose path is a single id is a root post. */
  lemma ShortPathIsRoot(table: seq<PostRow>, p: PostRow)
    requires TreeShaped(table) && p in table && |p.path| == 1
    ensures p.parent.None?
  {
    assert WellPlaced(table, p);
    if p.parent.Some? {
      var q :| q in table && q.id == p.parent.value && q.thread == p.thread && p.path == q.path + [p.id];
      RootOf(table, q);
    }
  }

  /** Two different posts never share a path, so every path order is total on a table. */
  lemma DistinctPaths(table: seq<PostRow>, p: PostRow, q: PostRow)
    requires TreeShaped(table) && p in table && q in table && p != q
    ensures p.path != q.path
  {
    RootOf(table, p);
    RootOf(table, q);
    if p.path == q.path {
      SameIdSameRow(table, p, q);
    }
  }

  /** Without a cursor the roots CTE takes `path[1]` of every post of the thread,
      with a cursor only that of posts without a parent.  On a tree-shaped table
      both draw from the same ids: those of the thread's root posts. */
  lemma RootCandidatesAreRootPosts(table: seq<PostRow>, thread: int, desc: bool, x: int)
    requires TreeShaped(table)
    ensures PathsAssigned(table)
    ensures x in RootCandidates(table, thread, None, desc) <==>
              exists r :: r in table && r.thread == thread && r.parent.None? && r.id == x
  {
    TreeShapedPathsAssigned(table);
    if x in RootCandidates(table, thread, None, desc) {
      var p :| p in table && RootWindow(p, thread, None, desc) && p.path[0] == x;
      RootOf(table, p);
    } else {
      forall r | r in table && r.thread == thread && r.parent.None? ensures r.id != x {
        assert WellPlaced(table, r);
        assert RootWindow(r, thread, None, desc) && r.path[0] == r.id;
      }
    }
  }

  /** In a listing sorted by the parent-tree order, a root sorts ahead of every
      longer path under it. */
  lemma RootSortsFirst(r: seq<PostRow>, desc: bool, i: nat, j: nat)
    requires Sorted(r, ParentTreeOrder(desc))
    requires i < |r| && j < |r|
    requires |r[i].path| == 1 && |r[j].path| > 1 && r[j].path[0] == r[i].path[0]
    ensures i < j
  {
    var root, reply := r[i], r[j];
    ParentTreeOrderIsStrictWeak(desc);
    if desc {
      assert RootDescKey(root) == RootDescKey(reply)[..1];
      PrefixPathLess(RootDescKey(root), RootDescKey(reply));
      ByKeyApply(RootDescKey, false, root, reply);
    } else {
      assert root.path == reply.path[..1];
      PrefixPathLess(root.path, reply.path);
      ByKeyApply(PathKey, false, root, reply);
    }
    SortedRespectsBefore(r, ParentTreeOrder(desc), i, j);
  }

  /** In a parent-tree listing, in either direction, a root post comes before
      every reply under it. */
  lemma RootPrecedesReplies(table: seq<PostRow>, thread: int, since: Option<int>, desc: bool, limit: nat, i: nat, j: nat)
    requires TreeShaped(table)
    ensures PathsAssigned(table)
    requires i < |ParentTreePosts(table, thread, since, desc, limit)|
    requires j < |ParentTreePosts(table, thread, since, desc, limit)|
    requires var r := ParentTreePosts(table, thread, since, desc, limit);
             r[i].parent.None? && r[j] != r[i] && |r[j].path| > 0 && r[j].path[0] == r[i].id
    ensures i < j
  {
    TreeShapedPathsAssigned(table);
    var r := ParentTreePosts(table, thread, since, desc, limit);
    var root, reply := r[i], r[j];
    assert root in table && reply in table;
    assert WellPlaced(table, root);
    if |reply.path| == 1 {
      ShortPathIsRoot(table, reply);
      SameIdSameRow(table, root, reply);
    }
    RootSortsFirst(r, desc, i, j);
  }

  /** `row` is the unedited row of the request `req`, with the id `id`. */
  predicate Carries(row: PostRow, id: int, req: NewPost)
  {
    && row.id == id && row.parent == req.parent && row.author == req.author
    && row.forum == req.forum && row.thread == req.thread
    && row.message == req.message && row.created == req.created && !row.isEdited
  }

  /** The row the store creates for one request with the id `id`, or None when
      the insert fails because the parent is not a post of the same thread. */
  function NewRow(rows: seq<PostRow>, id: int, req: NewPost): (row: Option<PostRow>)
    ensures row.Some? ==> Carries(row.value, id, req)
    ensures row.None? <==> req.parent.Some? && forall q :: q in rows ==> !(q.id == req.parent.value && q.thread == req.thread)
  {
    match req.parent
    case None => Some(PostRow(id, None, req.author, req.forum, req.thread, req.created, false, req.message, [id]))
    case Some(pid) =>
      match ParentIn(rows, pid, req.thread)
      case None => None
      case Some(q) => Some(PostRow(id, Some(pid), req.author, req.forum, req.thread, req.created, false, req.message, q.path + [id]))
  }

  function ParentIn(rows: seq<PostRow>, parent: int, thread: int): (q: Option<PostRow>)
    ensures q.Some? ==> q.value in rows && q.value.id == parent && q.value.thread == thread
    ensures q.None? ==> forall r :: r in rows ==> !(r.id == parent && r.thread == thread)
  {
    if rows == [] then None
    else if rows[0].id == parent && rows[0].thread == thread then Some(rows[0])
    else ParentIn(rows[1..], parent, thread)
  }

  /** Inserting a row with a fresh id keeps the table tree-shaped. */
  lemma NewRowKeepsTreeShape(rows: seq<PostRow>, id: int, req: NewPost)
    requires TreeShaped(rows) && forall p :: p in rows ==> p.id < id
    requires NewRow(rows, id, req).Some?
    ensures TreeShaped(rows + [NewRow(rows, id, req).value])
  {
    var row := NewRow(rows, id, req).value;
    var all := rows + [row];
    forall k | 0 <= k < |rows| ensures all[k].id < row.id {
      assert all[k] == rows[k];
    }
    forall p | p in all ensures WellPlaced(all, p) {
      if p in rows {
        assert WellPlaced(rows, p);
        if p.parent.Some? {
          var q :| q in rows && q.id == p.parent.value && q.thread == p.thread && p.path == q.path + [p.id];
          assert q in all;
        }
      } else {
        assert p == row;
        if req.parent.Some? {
          var q := ParentIn(rows, req.parent.value, req.thread).value;
          assert q in all;
        }
      }
    }
  }

  /** The rows a sequence of requests becomes when inserted one after the
      other with consecutive ids from `nextId`; None as soon as one of them
      cannot be inserted. */
  function InsertAll(rows: seq<PostRow>, nextId: int, reqs: seq<NewPost>): (r: Option<seq<PostRow>>)
    ensures r.Some? ==> |r.value| == |reqs|
    decreases |reqs|
  {
    if reqs == [] then Some([])
    else
      match NewRow(rows, nextId, reqs[0])
      case None => None
      case Some(row) =>
        match InsertAll(rows + [row], nextId + 1, reqs[1..])
        case None => None
        case Some(rest) => Some([row] + rest)
  }

  /** A successful insert yields one row per request, in request order, each
      carrying what its request asked for and consecutive fresh ids. */
  lemma {:induction false} InsertAllCarries(rows: seq<PostRow>, nextId: int, reqs: seq<NewPost>)
    requires InsertAll(rows, nextId, reqs).Some?
    ensures var out := InsertAll(rows, nextId, reqs).value;
            forall i :: 0 <= i < |reqs| ==> Carries(out[i], nextId + i, reqs[i])
    decreases |reqs|
  {
    if reqs != [] {
      var row := NewRow(rows, nextId, reqs[0]).value;
      InsertAllCarries(rows + [row], nextId + 1, reqs[1..]);
      var rest := InsertAll(rows + [row], nextId + 1, reqs[1..]).value;
      var out := [row] + rest;
      forall i | 0 < i < |reqs| ensures Carries(out[i], nextId + i, reqs[i]) {
        assert out[i] == rest[i - 1] && reqs[i] == reqs[1..][i - 1];
      }
    }
  }

  /** A successful insert leaves the table tree-shaped. */
  lemma {:induction false} InsertAllKeepsTreeShape(rows: seq<PostRow>, nextId: int, reqs: seq<NewPost>)
    requires TreeShaped(rows) && forall p :: p in rows ==> p.id < nextId
    requires InsertAll(rows, nextId, reqs).Some?
    ensures TreeShaped(rows + InsertAll(rows, nextId, reqs).value)
    decreases |reqs|
  {
    if reqs == [] {
      assert rows + [] == rows;
    } else {
      var row := NewRow(rows, nextId, reqs[0]).value;
      NewRowKeepsTreeShape(rows, nextId, reqs[0]);
      InsertAllKeepsTreeShape(rows + [row], nextId + 1, reqs[1..]);
      var rest := InsertAll(rows + [row], nextId + 1, reqs[1..]).value;
      assert rows + ([row] + rest) == (rows + [row]) + rest;
    }
  }

  /** The first `k` requests go in, and request `k` does not. */
  ghost predicate FailsAt(rows: seq<PostRow>, nextId: int, reqs: seq<NewPost>, k: nat)
  {
    && k < |reqs|
    && InsertAll(rows, nextId, reqs[..k]).Some?
    && NewRow(rows + InsertAll(rows, nextId, reqs[..k]).value, nextId + k, reqs[k]).None?
  }

  /** A failed insert failed at some request whose parent is neither a post of
      its thread already in the table nor the post of an earlier request. */
  lemma {:induction false} InsertAllFails(rows: seq<PostRow>, nextId: int, reqs: seq<NewPost>)
    requires InsertAll(rows, nextId, reqs).None?
    ensures exists k: nat :: FailsAt(rows, nextId, reqs, k)
    decreases |reqs|
  {
    assert reqs != [];
    assert reqs[..0] == [];
    assert rows + [] == rows;
    var first := NewRow(rows, nextId, reqs[0]);
    if first.None? {
      assert FailsAt(rows, nextId, reqs, 0);
    } else {
      var row := first.value;
      InsertAllFails(rows + [row], nextId + 1, reqs[1..]);
      var k: nat :| FailsAt(rows + [row], nextId + 1, reqs[1..], k);
      StepFailsAt(rows, nextId, reqs, row, k);
    }
  }

  lemma StepFailsAt(rows: seq<PostRow>, nextId: int, reqs: seq<NewPost>, row: PostRow, k: nat)
    requires reqs != [] && NewRow(rows, nextId, reqs[0]) == Some(row)
    requires FailsAt(rows + [row], nextId + 1, reqs[1..], k)
    ensures FailsAt(rows, nextId, reqs, k + 1)
  {
    assert reqs[..k + 1][1..] == reqs[1..][..k];
    var rest := InsertAll(rows + [row], nextId + 1, reqs[1..][..k]).value;
    assert InsertAll(rows, nextId, reqs[..k + 1]) == Some([row] + rest);
    assert rows + ([row] + rest) == (rows + [row]) + rest;
    assert reqs[k + 1] == reqs[1..][k];
  }

  /** Inserting one more request after a successful run extends it by that
      request's row, or fails when that row cannot be inserted. */
  lemma {:induction false} InsertAllSnoc(rows: seq<PostRow>, nextId: int, reqs: seq<NewPost>, req: NewPost)
    requires InsertAll(rows, nextId, reqs).Some?
    ensures var out := InsertAll(rows, nextId, reqs).value;
            InsertAll(rows, nextId, reqs + [req]) ==
              match NewRow(rows + out, nextId + |reqs|, req)
              case None => None
              case Some(row) => Some(out + [row])
    decreases |reqs|
  {
    var out := InsertAll(rows, nextId, reqs).value;
    if reqs == [] {
      assert [] + [req] == [req];
      assert rows + [] == rows;
      match NewRow(rows, nextId, req)
      case None =>
      case Some(row) =>
        assert [row] + [] == [] + [row];
    } else {
      var row := NewRow(rows, nextId, reqs[0]).value;
      var rest := InsertAll(rows + [row], nextId + 1, reqs[1..]).value;
      assert (reqs + [req])[0] == reqs[0] && (reqs + [req])[1..] == reqs[1..] + [req];
      InsertAllSnoc(rows + [row], nextId + 1, reqs[1..], req);
      assert (rows + [row]) + rest == rows + out;
      match NewRow(rows + out, nextId + |reqs|, req)
      case None =>
      case Some(last) =>
        assert [row] + (rest + [last]) == out + [last];
    }
  }

  /** Once a request cannot be inserted, the whole run fails. */
  lemma InsertAllStopsAt(rows: seq<PostRow>, nextId: int, reqs: seq<NewPost>, k: nat)
    requires FailsAt(rows, nextId, reqs, k)
    ensures InsertAll(rows, nextId, reqs).None?
  {
    InsertAllStopsAtPrefix(rows, nextId, reqs, k, |reqs|);
    assert reqs[..|reqs|] == reqs;
  }

  lemma {:induction false} InsertAllStopsAtPrefix(rows: seq<PostRow>, nextId: int, reqs: seq<NewPost>, k: nat, m: nat)
    requires FailsAt(rows, nextId, reqs, k) && k < m <= |reqs|
    ensures InsertAll(rows, nextId, reqs[..m]).None?
    decreases m
  {
    var out := InsertAll(rows, nextId, reqs[..k]).value;
    if m == k + 1 {
      InsertAllSnoc(rows, nextId, reqs[..k], reqs[k]);
      assert reqs[..k] + [reqs[k]] == reqs[..m];
    } else {
      InsertAllStopsAtPrefix(rows, nextId, reqs, k, m - 1);
      InsertAllNoneSnoc(rows, nextId, reqs[..m - 1], reqs[m - 1]);
      assert reqs[..m - 1] + [reqs[m - 1]] == reqs[..m];
    }
  }

  /** A failed run stays failed whatever is appended to it. */
  lemma {:induction false} InsertAllNoneSnoc(rows: seq<PostRow>, nextId: int, reqs: seq<NewPost>, req: NewPost)
    requires InsertAll(rows, nextId, reqs).None?
    ensures InsertAll(rows, nextId, reqs + [req]).None?
    decreases |reqs|
  {
    assert (reqs + [req])[0] == reqs[0] && (reqs + [req])[1..] == reqs[1..] + [req];
    if NewRow(rows, nextId, reqs[0]).Some? {
      var row := NewRow(rows, nextId, reqs[0]).value;
      InsertAllNoneSnoc(rows + [row], nextId + 1, reqs[1..], req);
    }
  }

  /** What running the requests `reqs` against the table `rows` with the
      sequence at `nextId` gives: all their rows, or a rejection at the first
      request that cannot go in, with the table as before. */
  ghost predicate Ran(rows: seq<PostRow>, nextId: int, reqs: seq<NewPost>,
                      outcome: Outcome<PostRow>, rows': seq<PostRow>, nextId': int)
  {
    match InsertAll(rows, nextId, reqs)
    case Some(out) => outcome == Rows(out) && rows' == rows + out && nextId' == nextId + |reqs|
    case None => outcome == Failed(RowRejected) && rows' == rows && nextId' > nextId &&
                 FailsAt(rows, nextId, reqs, nextId' - nextId - 1)
  }

  lemma RanRejected(rows: seq<PostRow>, nextId: int, reqs: seq<NewPost>, i: nat)
    requires i < |reqs| && InsertAll(rows, nextId, reqs[..i]).Some?
    requires NewRow(rows + InsertAll(rows, nextId, reqs[..i]).value, nextId + i, reqs[i]).None?
    ensures Ran(rows, nextId, reqs, Failed(RowRejected), rows, nextId + i + 1)
  {
    assert FailsAt(rows, nextId, reqs, i);
    InsertAllStopsAt(rows, nextId, reqs, i);
  }

  lemma RanStep(rows: seq<PostRow>, nextId: int, reqs: seq<NewPost>, i: nat, out: seq<PostRow>, row: PostRow)
    requires i < |reqs| && InsertAll(rows, nextId, reqs[..i]) == Some(out)
    requires NewRow(rows + out, nextId + i, reqs[i]) == Some(row)
    ensures InsertAll(rows, nextId, reqs[..i + 1]) == Some(out + [row])
  {
    assert reqs[..i + 1] == reqs[..i] + [reqs[i]];
    InsertAllSnoc(rows, nextId, reqs[..i], reqs[i]);
  }

  lemma RanAll(rows: seq<PostRow>, nextId: int, reqs: seq<NewPost>, out: seq<PostRow>)
    requires InsertAll(rows, nextId, reqs[..|reqs|]) == Some(out)
    ensures Ran(rows, nextId, reqs, Rows(out), rows + out, nextId + |reqs|)
  {
    assert reqs[..|reqs|] == reqs;
  }

  /** A run of one request is that request's row. */
  lemma InsertAllOne(rows: seq<PostRow>, nextId: int, req: NewPost)
    ensures InsertAll(rows, nextId, [req]) ==
              match NewRow(rows, nextId, req)
              case None => None
              case Some(row) => Some([row])
  {
    assert [req][1..] == [];
    if NewRow(rows, nextId, req).Some? {
      assert [NewRow(rows, nextId, req).value] + [] == [NewRow(rows, nextId, req).value];
    }
  }

  /** The posts table of the store, with the serial sequence behind `posts.id`. */
  class PostTable {
    var rows: seq<PostRow>
    var nextId: int

    ghost predicate Valid()
      reads this
    {
      TreeShaped(rows) && forall p :: p in rows ==> p.id < nextId
    }

    constructor ()
      ensures Valid() && rows == []
    {
      rows := [];
      nextId := 1;
    }

    /** One row of an `INSERT INTO posts ...`: draws the next id from the
        sequence (also when the insert then fails) and adds the row. */
    method Insert(req: NewPost) returns (row: Option<PostRow>)
      requires Valid()
      modifies this
      ensures Valid()
      ensures row == NewRow(old(rows), old(nextId), req)
      ensures rows == if row.Some? then old(rows) + [row.value] else old(rows)
      ensures nextId == old(nextId) + 1
    {
      row := NewRow(rows, nextId, req);
      if row.Some? {
        NewRowKeepsTreeShape(rows, nextId, req);
        rows := rows + [row.value];
      }
      nextId := nextId + 1;
    }

    /** One post INSERT statement with its arguments.  A statement that does
        not prepare is refused and changes nothing; otherwise its rows go in
        as Run puts them in. */
    method Execute(query: string, values: seq<Value>) returns (outcome: Outcome<PostRow>)
      requires Valid()
      modifies this
      ensures Valid()
      ensures PrepareInsert(query, values).NotPrepared? ==>
                outcome == Refused(PrepareInsert(query, values).err) && rows == old(rows) && nextId == old(nextId)
      ensures PrepareInsert(query, values).Prepared? ==>
                Ran(old(rows), old(nextId), PrepareInsert(query, values).reqs, outcome, rows, nextId)
    {
      var prepared := PrepareInsert(query, values);
      if prepared.NotPrepared? {
        return Refused(prepared.err);
      }
      outcome := Run(prepared.reqs);
    }

    /** Executes a statement of a batch that prepared into a single row:
        that row goes in, or the statement is rejected and only its id is
        drawn. */
    method ExecuteRow(statement: Prepared) returns (outcome: Outcome<PostRow>)
      requires Valid() && statement.Prepared? && |statement.reqs| == 1
      modifies this
      ensures Valid() && nextId == old(nextId) + 1
      ensures outcome.Failed? || outcome.Rows?
      ensures outcome.Failed? ==>
                NewRow(old(rows), old(nextId), statement.reqs[0]).None? && outcome.err == RowRejected && rows == old(rows)
      ensures outcome.Rows? ==>
                |outcome.rows| == 1 && NewRow(old(rows), old(nextId), statement.reqs[0]) == Some(outcome.rows[0]) &&
                rows == old(rows) + outcome.rows
    {
      ghost var req := statement.reqs[0];
      assert statement.reqs == [req];
      InsertAllOne(rows, nextId, req);
      ghost var before := rows;
      outcome := Run(statement.reqs);
      if outcome.Failed? {
        assert [req][..0] == [] && before + [] == before;
      }
    }

    /** The rows of one statement go in one after the other; when one is
        rejected, the statement is undone as a whole (the ids it drew stay
        drawn). */
    method Run(reqs: seq<NewPost>) returns (outcome: Outcome<PostRow>)
      requires Valid()
      modifies this
      ensures Valid()
      ensures Ran(old(rows), old(nextId), reqs, outcome, rows, nextId)
    {
      var saved, first := rows, nextId;
      var out: seq<PostRow> := [];
      var i := 0;
      assert reqs[..0] == [];
      while i < |reqs|
        invariant 0 <= i <= |reqs|
        invariant Valid() && rows == saved + out && nextId == first + i
        invariant TreeShaped(saved) && forall p :: p in saved ==> p.id < first
        invariant InsertAll(saved, first, reqs[..i]) == Some(out)
      {
        var row := InsertNext(saved, first, reqs, i, out);
        if row.None? {
          RanRejected(saved, first, reqs, i);
          Rollback(saved);
          return Failed(RowRejected);
        }
        out := out + [row.value];
        i := i + 1;
      }
      RanAll(saved, first, reqs, out);
      return Rows(out);
    }

    /** Row i of a statement whose first i rows went in as `out`. */
    method InsertNext(ghost saved: seq<PostRow>, ghost first: int, reqs: seq<NewPost>, i: nat, ghost out: seq<PostRow>)
      returns (row: Option<PostRow>)
      requires Valid() && i < |reqs| && rows == saved + out && nextId == first + i
      requires TreeShaped(saved) && (forall p :: p in saved ==> p.id < first) && InsertAll(saved, first, reqs[..i]) == Some(out)
      modifies this
      ensures Valid() && nextId == first + i + 1
      ensures row.None? ==> rows == saved + out && NewRow(saved + out, first + i, reqs[i]).None?
      ensures row.Some? ==> rows == saved + (out + [row.value]) && InsertAll(saved, first, reqs[..i + 1]) == Some(out + [row.value])
    {
      row := Insert(reqs[i]);
      if row.Some? {
        RanStep(saved, first, reqs, i, out, row.value);
      }
    }

    /** ROLLBACK to a state saved at BEGIN; the id sequence is not rolled back. */
    method Rollback(saved: seq<PostRow>)
      requires Valid() && TreeShaped(saved) && forall p :: p in saved ==> p.id < nextId
      modifies this
      ensures Valid() && rows == saved && nextId == old(nextId)
    {
      rows := saved;
    }
  }
}
