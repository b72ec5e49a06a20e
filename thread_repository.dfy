/**
 * The post operations of the thread repository (app/repositories/thread.go):
 * picking and running one of the twelve listings, and creating posts either
 * with one multi-row INSERT or with a batch of one-row INSERTs in a
 * transaction.  The creation time (`time.Now()`) is a parameter, and so are
 * the positions of rows that `rows.Scan` cannot read.
 */
module ThreadRepository {
  import opened Wrappers
  import opened Models
  import opened PostQueries
  import opened PostStore
  import opened InsertText
  import opened Driver
  import ForumStore

  // ---------------------------------------------------------------- GetPosts

  /** One of the twelve listing statements: the map it is taken from (with
      or without a cursor, descending or not) and the sort type that keys it. */
  datatype PostQuery = PostQuery(withSince: bool, desc: bool, sort: SortType)

  /** How many placeholders the statement has: $1 thread, [$2 since,] limit. */
  function Arity(q: PostQuery): nat
  {
    if q.withSince then 3 else 2
  }

  /** The statement GetPosts runs and the arguments it passes. */
  function ChooseQuery(threadId: int, params: PostsQueryParams): (r: (PostQuery, seq<Value>))
    ensures |r.1| == Arity(r.0)
  {
    if params.since == 0 then
      (PostQuery(false, params.desc, params.sortType), [IntValue(threadId), IntValue(params.limit)])
    else
      (PostQuery(true, params.desc, params.sortType), [IntValue(threadId), IntValue(params.since), IntValue(params.limit)])
  }

  /** What the store does with a listing statement and its arguments: refuses
      it when the arguments do not fit the placeholders, fails it while it runs
      when the LIMIT is negative, and otherwise yields the listing. */
  function RunPostQuery(table: seq<PostRow>, q: PostQuery, args: seq<Value>): (r: Outcome<PostRow>)
    requires PathsAssigned(table)
    ensures r.Rows? ==> forall p :: p in r.rows ==> p in table
  {
    if |args| != Arity(q) then Refused(DriverError("wrong number of arguments"))
    else if exists k :: 0 <= k < |args| && !args[k].IntValue? then Refused(DriverError("cannot encode argument"))
    else
      var limit := args[|args| - 1].i;
      if limit < 0 then Failed(PgError(NegativeLimit))
      else Rows(ListPosts(table, q.sort, args[0].i, if q.withSince then Some(args[1].i) else None, q.desc, limit))
  }

  /** The listing a request asks for: Since 0 means no cursor. */
  function Listing(table: seq<PostRow>, threadId: int, params: PostsQueryParams): seq<PostRow>
    requires PathsAssigned(table) && params.limit >= 0
  {
    ListPosts(table, params.sortType, threadId, if params.since == 0 then None else Some(params.since), params.desc, params.limit)
  }

  /** GetPosts takes the statement without a cursor exactly when Since is 0
      and the descending map exactly when Desc is set, and the arguments it
      passes always fit that statement: what runs is the requested listing,
      or the store's rejection of a negative limit. */
  lemma GetPostsRunsListing(table: seq<PostRow>, threadId: int, params: PostsQueryParams)
    requires PathsAssigned(table)
    ensures var (q, args) := ChooseQuery(threadId, params);
            && (q.withSince <==> params.since != 0) && q.desc == params.desc && q.sort == params.sortType
            && RunPostQuery(table, q, args) ==
                 if params.limit < 0 then Failed(PgError(NegativeLimit)) else Rows(Listing(table, threadId, params))
  {
  }

  /** GetPosts as written: the rows are read, but `rows.Err()` is never
      consulted, so a statement that fails while running reads as an empty
      listing without error. */
  method GetPosts(db: PostTable, threadId: int, params: PostsQueryParams, faults: set<nat>)
    returns (posts: Option<seq<Post>>, err: Option<Error>)
    requires db.Valid()
    ensures params.limit < 0 ==> posts == Some([]) && err.None?
    ensures params.limit >= 0 ==>
              PathsAssigned(db.rows) && Collected(Listing(db.rows, threadId, params), ScanPost, faults, posts, err)
  {
    TreeShapedPathsAssigned(db.rows);
    var (q, args) := ChooseQuery(threadId, params);
    GetPostsRunsListing(db.rows, threadId, params);
    var outcome := RunPostQuery(db.rows, q, args);
    posts, err := ListIgnoringStreamError(outcome, ScanPost, faults);
  }

  /** GetPosts with the `rows.Err()` check CreatePosts has: a negative limit
      is reported. */
  method GetPostsChecked(db: PostTable, threadId: int, params: PostsQueryParams, faults: set<nat>)
    returns (posts: Option<seq<Post>>, err: Option<Error>)
    requires db.Valid()
    ensures params.limit < 0 ==> posts == Some([]) && err == Some(PgError(NegativeLimit))
    ensures params.limit >= 0 ==>
              PathsAssigned(db.rows) && Collected(Listing(db.rows, threadId, params), ScanPost, faults, posts, err)
  {
    TreeShapedPathsAssigned(db.rows);
    var (q, args) := ChooseQuery(threadId, params);
    GetPostsRunsListing(db.rows, threadId, params);
    var outcome := RunPostQuery(db.rows, q, args);
    posts, err := ListCheckingStreamError(outcome, ScanPost, faults);
  }

  // ---------------------------------------------------------------- the INSERT text and its values

  /** The six arguments of one post, in placeholder order. */
  function PostValues(post: Post, forumSlug: string, threadId: int, created: Time): (vs: seq<Value>)
    ensures |vs| == 6
  {
    [IntValue(post.parent), TextValue(post.author), TextValue(forumSlug), IntValue(threadId),
     TextValue(post.message), TimeValue(created)]
  }

  /** The arguments of the multi-row INSERT: six per post, post after post. */
  function InsertValues(threadId: int, forumSlug: string, posts: seq<Post>, created: Time): (vs: seq<Value>)
    ensures |vs| == 6 * |posts|
    ensures forall j :: 0 <= j < |vs| ==> vs[j] == PostValues(posts[j / 6], forumSlug, threadId, created)[j % 6]
  {
    seq(6 * |posts|, j requires 0 <= j < 6 * |posts| => PostValues(posts[j / 6], forumSlug, threadId, created)[j % 6])
  }

  /** The row the store is asked for on behalf of `post`: parent 0 becomes NULL. */
  function Request(post: Post, forumSlug: string, threadId: int, created: Time): NewPost
  {
    NewPost(if post.parent == 0 then None else Some(post.parent), post.author, forumSlug, threadId, post.message, created)
  }

  function Requests(threadId: int, forumSlug: string, posts: seq<Post>, created: Time): (reqs: seq<NewPost>)
    ensures |reqs| == |posts|
    ensures forall i :: 0 <= i < |posts| ==> reqs[i] == Request(posts[i], forumSlug, threadId, created)
  {
    seq(|posts|, i requires 0 <= i < |posts| => Request(posts[i], forumSlug, threadId, created))
  }

  /** Argument 6i + k + 1 is value k of post i. */
  lemma ValueAt(threadId: int, forumSlug: string, posts: seq<Post>, created: Time, i: nat, k: nat, p: nat)
    requires i < |posts| && k < 6 && p == 6 * i + 1 + k
    ensures Arg(InsertValues(threadId, forumSlug, posts, created), p) ==
            Some(PostValues(posts[i], forumSlug, threadId, created)[k])
  {
    assert (6 * i + k) / 6 == i && (6 * i + k) % 6 == k;
  }

  /** Tuple i of the statement, bound to the arguments, asks for post i. */
  lemma BindTuple(threadId: int, forumSlug: string, posts: seq<Post>, created: Time, i: nat)
    requires i < |posts|
    ensures Bind(Six(6 * i + 1), InsertValues(threadId, forumSlug, posts, created)) ==
            Some(Request(posts[i], forumSlug, threadId, created))
  {
    var ps := Six(6 * i + 1);
    var vs := InsertValues(threadId, forumSlug, posts, created);
    ValueAt(threadId, forumSlug, posts, created, i, 0, ps[0]);
    ValueAt(threadId, forumSlug, posts, created, i, 1, ps[1]);
    ValueAt(threadId, forumSlug, posts, created, i, 2, ps[2]);
    ValueAt(threadId, forumSlug, posts, created, i, 3, ps[3]);
    ValueAt(threadId, forumSlug, posts, created, i, 4, ps[4]);
    ValueAt(threadId, forumSlug, posts, created, i, 5, ps[5]);
    BindSix(ps, vs, posts[i].parent, posts[i].author, forumSlug, threadId, posts[i].message, created);
  }

  lemma BindSix(ps: seq<nat>, vs: seq<Value>, parent: int, author: string, forum: string, thread: int, message: string, created: Time)
    requires |ps| == 6
    requires Arg(vs, ps[0]) == Some(IntValue(parent)) && Arg(vs, ps[1]) == Some(TextValue(author))
    requires Arg(vs, ps[2]) == Some(TextValue(forum)) && Arg(vs, ps[3]) == Some(IntValue(thread))
    requires Arg(vs, ps[4]) == Some(TextValue(message)) && Arg(vs, ps[5]) == Some(TimeValue(created))
    ensures Bind(ps, vs) == Some(NewPost(if parent == 0 then None else Some(parent), author, forum, thread, message, created))
  {
  }

  /** A statement that parses, takes as many arguments as it is given and
      binds them, prepares into what it binds to. */
  lemma PrepareBound(query: string, values: seq<Value>, ts: seq<seq<nat>>, reqs: seq<NewPost>)
    requires ParseInsert(query) == Some(ts) && forall i :: 0 <= i < |ts| ==> |ts[i]| == 6
    requires ParamCount(ts) == |values| && BindAll(ts, values) == Some(reqs)
    ensures PrepareInsert(query, values) == Prepared(reqs)
  {
  }

  /** The multi-row INSERT with its arguments prepares into one request per
      post, in order; with no posts the text is not valid SQL. */
  lemma PrepareCreatePosts(threadId: int, forumSlug: string, posts: seq<Post>, created: Time)
    ensures PrepareInsert(InsertQuery(|posts|), InsertValues(threadId, forumSlug, posts, created)) ==
            if posts == [] then NotPrepared(PgError(SyntaxError)) else Prepared(Requests(threadId, forumSlug, posts, created))
  {
    var n := |posts|;
    ParseInsertQuery(n);
    if n > 0 {
      var ts := Placeholders(n);
      var vs := InsertValues(threadId, forumSlug, posts, created);
      var reqs := Requests(threadId, forumSlug, posts, created);
      ParamCountPlaceholders(n);
      forall i | 0 <= i < n ensures Bind(ts[i], vs) == Some(reqs[i]) {
        BindTuple(threadId, forumSlug, posts, created, i);
      }
      BindAllOf(ts, vs, reqs);
      PrepareBound(InsertQuery(n), vs, ts, reqs);
    }
  }

  /** When every tuple binds, BindAll gives what each binds to. */
  lemma BindAllOf(ts: seq<seq<nat>>, vs: seq<Value>, reqs: seq<NewPost>)
    requires |ts| == |reqs| && forall i :: 0 <= i < |ts| ==> |ts[i]| == 6 && Bind(ts[i], vs) == Some(reqs[i])
    ensures BindAll(ts, vs) == Some(reqs)
    decreases |ts|
  {
    if ts != [] {
      forall i | 0 <= i < |ts| - 1 ensures |ts[1..][i]| == 6 && Bind(ts[1..][i], vs) == Some(reqs[1..][i]) {
        assert ts[1..][i] == ts[i + 1] && reqs[1..][i] == reqs[i + 1];
      }
      BindAllOf(ts[1..], vs, reqs[1..]);
      assert [reqs[0]] + reqs[1..] == reqs;
    }
  }

  /** `strings.TrimSuffix`: `s` without `suffix` when it ends with it. */
  function TrimSuffix(s: string, suffix: string): (r: string)
    ensures |suffix| <= |s| && s[|s| - |suffix|..] == suffix ==> r + suffix == s
    ensures !(|suffix| <= |s| && s[|s| - |suffix|..] == suffix) ==> r == s
  {
    if |suffix| <= |s| && s[|s| - |suffix|..] == suffix then s[..|s| - |suffix|] else s
  }

  /** Each part followed by a comma. */
  function Terminated(parts: seq<string>): string
  {
    if parts == [] then "" else Terminated(parts[..|parts| - 1]) + (parts[|parts| - 1] + ",")
  }

  lemma {:induction false} JoinPartsSnoc(parts: seq<string>, p: string)
    requires |parts| > 0
    ensures JoinParts(parts + [p]) == JoinParts(parts) + ("," + p)
    decreases |parts|
  {
    assert (parts + [p])[0] == parts[0];
    if |parts| > 1 {
      assert (parts + [p])[1..] == parts[1..] + [p];
      JoinPartsSnoc(parts[1..], p);
      Associative(parts[0], "," + JoinParts(parts[1..]), "," + p);
      Associative(",", JoinParts(parts[1..]), "," + p);
    }
  }

  /** Dropping the last comma of the comma-terminated parts leaves them
      comma-separated. */
  lemma {:induction false} TerminatedIsJoined(parts: seq<string>)
    requires |parts| > 0
    ensures Terminated(parts) == JoinParts(parts) + ","
    decreases |parts|
  {
    var init, last := parts[..|parts| - 1], parts[|parts| - 1];
    if |parts| == 1 {
      assert Terminated(init) == "";
    } else {
      TerminatedIsJoined(init);
      JoinPartsSnoc(init, last);
      assert init + [last] == parts;
      Associative(JoinParts(init), ",", last + ",");
      Associative(JoinParts(init), "," + last, ",");
    }
  }

  lemma PostsCreateEndsWithBlank()
    ensures |PostsCreate| > 0 && PostsCreate[|PostsCreate| - 1] == ' '
  {
  }

  /** The loop of CreatePosts that writes one tuple per post, each followed by
      a comma, and collects the arguments; then the trailing comma goes and the
      RETURNING clause follows. */
  method BuildCreatePosts(threadId: int, forumSlug: string, posts: seq<Post>, created: Time)
    returns (query: string, values: seq<Value>)
    ensures query == InsertQuery(|posts|)
    ensures values == InsertValues(threadId, forumSlug, posts, created)
  {
    query := PostsCreate;
    values := [];
    for i := 0 to |posts|
      invariant query == PostsCreate + Terminated(Tuples(i))
      invariant values == InsertValues(threadId, forumSlug, posts[..i], created)
    {
      assert Tuples(i + 1)[..i] == Tuples(i);
      Associative(PostsCreate, Terminated(Tuples(i)), TupleText(6 * i + 1) + ",");
      query := query + (TupleText(6 * i + 1) + ",");
      ValuesSnoc(threadId, forumSlug, posts, created, i);
      values := values + PostValues(posts[i], forumSlug, threadId, created);
    }
    assert posts[..|posts|] == posts;
    TrimTrailingComma(|posts|);
    query := TrimSuffix(query, ",");
    query := query + CreatePostsTwo;
    if |posts| > 0 {
      Associative(PostsCreate, JoinParts(Tuples(|posts|)), CreatePostsTwo);
    }
  }

  lemma ValuesSnoc(threadId: int, forumSlug: string, posts: seq<Post>, created: Time, i: nat)
    requires i < |posts|
    ensures InsertValues(threadId, forumSlug, posts[..i + 1], created) ==
            InsertValues(threadId, forumSlug, posts[..i], created) + PostValues(posts[i], forumSlug, threadId, created)
  {
    var a := InsertValues(threadId, forumSlug, posts[..i + 1], created);
    var b := InsertValues(threadId, forumSlug, posts[..i], created) + PostValues(posts[i], forumSlug, threadId, created);
    forall j | 0 <= j < |a| ensures a[j] == b[j] {
      if j < 6 * i {
        assert j / 6 < i;
      } else {
        assert j / 6 == i && j % 6 == j - 6 * i;
      }
    }
  }

  lemma TrimTrailingComma(n: nat)
    ensures TrimSuffix(PostsCreate + Terminated(Tuples(n)), ",") ==
            if n == 0 then PostsCreate else PostsCreate + JoinParts(Tuples(n))
  {
    if n == 0 {
      PostsCreateEndsWithBlank();
      assert PostsCreate + Terminated(Tuples(0)) == PostsCreate;
    } else {
      TerminatedIsJoined(Tuples(n));
      var s := PostsCreate + JoinParts(Tuples(n));
      Associative(PostsCreate, JoinParts(Tuples(n)), ",");
      assert (s + ",")[|s + ","| - 1..] == ",";
      var r := TrimSuffix(s + ",", ",");
      assert r == (r + ",")[..|r|] == (s + ",")[..|s|] == s;
    }
  }

  // ---------------------------------------------------------------- CreatePosts and CreatePostsBatch

  /** The posts a successful creation hands back echo their requests: fresh
      consecutive ids in request order, the thread and forum of the call, one
      creation time for all, not edited, and parent 0 for a root. */
  lemma CreatedPostsEchoRequests(rows: seq<PostRow>, nextId: int, threadId: int, forumSlug: string, posts: seq<Post>, created: Time)
    requires InsertAll(rows, nextId, Requests(threadId, forumSlug, posts, created)).Some?
    ensures var out := InsertAll(rows, nextId, Requests(threadId, forumSlug, posts, created)).value;
            |out| == |posts| &&
            forall i :: 0 <= i < |posts| ==>
              ScanPost(out[i]) == Post(nextId + i, posts[i].parent, posts[i].author, forumSlug, threadId, created, false, posts[i].message)
  {
    var reqs := Requests(threadId, forumSlug, posts, created);
    InsertAllCarries(rows, nextId, reqs);
  }

  /** CreatePosts: one multi-row INSERT with RETURNING, its rows read back and
      `rows.Err()` checked.  With no posts the statement is refused; when one
      row is rejected nothing is inserted and an empty slice comes back with
      the error; a row that does not scan leaves the inserted rows in place. */
  method CreatePosts(db: PostTable, threadId: int, forumSlug: string, posts: seq<Post>, created: Time, faults: set<nat>)
    returns (createdPosts: Option<seq<Post>>, err: Option<Error>)
    requires db.Valid()
    modifies db
    ensures db.Valid()
    ensures posts == [] ==>
              createdPosts.None? && err == Some(PgError(SyntaxError)) && db.rows == old(db.rows) && db.nextId == old(db.nextId)
    ensures posts != [] ==>
              match InsertAll(old(db.rows), old(db.nextId), Requests(threadId, forumSlug, posts, created))
              case Some(out) => db.rows == old(db.rows) + out && Collected(out, ScanPost, faults, createdPosts, err)
              case None => db.rows == old(db.rows) && createdPosts == Some([]) && err == Some(RowRejected)
  {
    var query, values := BuildCreatePosts(threadId, forumSlug, posts, created);
    PrepareCreatePosts(threadId, forumSlug, posts, created);
    var outcome := db.Execute(query, values);
    createdPosts, err := ListCheckingStreamError(outcome, ScanPost, faults);
  }

  /** The per-post statement of CreatePostsBatch prepares into that post's request. */
  lemma PrepareBatchStatement(threadId: int, forumSlug: string, post: Post, created: Time)
    ensures PrepareInsert(InsertText.CreatePostsBatch, PostValues(post, forumSlug, threadId, created)) ==
            Prepared([Request(post, forumSlug, threadId, created)])
  {
    BatchStatementIsOneTuple();
    PrepareCreatePosts(threadId, forumSlug, [post], created);
    OnePostValues(threadId, forumSlug, post, created);
    OnePostRequests(threadId, forumSlug, post, created);
  }

  lemma OnePostValues(threadId: int, forumSlug: string, post: Post, created: Time)
    ensures InsertValues(threadId, forumSlug, [post], created) == PostValues(post, forumSlug, threadId, created)
  {
    var a, b := InsertValues(threadId, forumSlug, [post], created), PostValues(post, forumSlug, threadId, created);
    forall j | 0 <= j < 6 ensures a[j] == b[j] {
      assert j / 6 == 0 && j % 6 == j;
    }
  }

  lemma OnePostRequests(threadId: int, forumSlug: string, post: Post, created: Time)
    ensures Requests(threadId, forumSlug, [post], created) == [Request(post, forumSlug, threadId, created)]
  {
  }

  /** The batch CreatePostsBatch queues: the one-row INSERT once per post,
      with that post's arguments. */
  method QueueBatch(threadId: int, forumSlug: string, posts: seq<Post>, created: Time)
    returns (batch: seq<(string, seq<Value>)>)
    ensures |batch| == |posts|
    ensures forall k :: 0 <= k < |posts| ==>
              PrepareInsert(batch[k].0, batch[k].1) == Prepared([Request(posts[k], forumSlug, threadId, created)])
  {
    batch := [];
    for i := 0 to |posts|
      invariant |batch| == i
      invariant forall k :: 0 <= k < i ==> batch[k] == (InsertText.CreatePostsBatch, PostValues(posts[k], forumSlug, threadId, created))
    {
      batch := batch + [(InsertText.CreatePostsBatch, PostValues(posts[i], forumSlug, threadId, created))];
    }
    forall k | 0 <= k < |posts|
      ensures PrepareInsert(batch[k].0, batch[k].1) == Prepared([Request(posts[k], forumSlug, threadId, created)])
    {
      PrepareBatchStatement(threadId, forumSlug, posts[k], created);
    }
  }

  /** SendBatch: the server parses and binds every queued statement. */
  function SendBatch(batch: seq<(string, seq<Value>)>): (pending: seq<Prepared>)
    ensures |pending| == |batch|
  {
    seq(|batch|, k requires 0 <= k < |batch| => PrepareInsert(batch[k].0, batch[k].1))
  }

  /** The next result of the batch: the i-th statement's row goes in after
      the rows of the statements before it, or the statement is rejected
      and with it the whole run. */
  method ReadRow(db: PostTable, statement: Prepared, ghost saved: seq<PostRow>, ghost first: int,
                 ghost reqs: seq<NewPost>, ghost i: nat, ghost out: seq<PostRow>)
    returns (row: Option<PostRow>)
    requires db.Valid() && i < |reqs| && statement == Prepared([reqs[i]])
    requires db.rows == saved + out && db.nextId == first + i && InsertAll(saved, first, reqs[..i]) == Some(out)
    modifies db
    ensures db.Valid() && db.nextId == first + i + 1
    ensures row.None? ==> FailsAt(saved, first, reqs, i) && InsertAll(saved, first, reqs).None? && db.rows == saved + out
    ensures row.Some? ==> InsertAll(saved, first, reqs[..i + 1]) == Some(out + [row.value]) &&
                          db.rows == saved + (out + [row.value])
  {
    var outcome := db.ExecuteRow(statement);
    if outcome.Failed? {
      assert FailsAt(saved, first, reqs, i);
      RanRejected(saved, first, reqs, i);
      return None;
    }
    RanStep(saved, first, reqs, i, out, outcome.rows[0]);
    return Some(outcome.rows[0]);
  }

  /** Reading the batch meets a scan fault before any rejection: some row
      that does not scan comes from a statement that, with every statement
      before it, went in. */
  ghost predicate ScanFaultFirst(rows: seq<PostRow>, nextId: int, reqs: seq<NewPost>, faults: set<nat>)
  {
    exists j :: j in faults && j < |reqs| && InsertAll(rows, nextId, reqs[..j + 1]).Some?
  }

  /** A rejection met before any row failed to scan rules out a scan fault
      coming first. */
  lemma RejectionFirst(rows: seq<PostRow>, nextId: int, reqs: seq<NewPost>, faults: set<nat>, i: nat)
    requires FailsAt(rows, nextId, reqs, i) && !ScanFails(i, faults)
    ensures !ScanFaultFirst(rows, nextId, reqs, faults)
  {
    forall j | j in faults && j < |reqs| ensures InsertAll(rows, nextId, reqs[..j + 1]).None? {
      InsertAllStopsAtPrefix(rows, nextId, reqs, i, j + 1);
    }
  }

  /** The loop of CreatePostsBatch over the batch results: each statement's
      row is read with QueryRow and scanned; the first statement that fails
      or row that does not scan ends it with a nil slice and that error.
      `read` is the number of results consumed. */
  method ReadBatch(db: PostTable, pending: seq<Prepared>, ghost reqs: seq<NewPost>, faults: set<nat>)
    returns (createdPosts: Option<seq<Post>>, err: Option<Error>, read: nat)
    requires db.Valid() && |pending| == |reqs|
    requires forall k :: 0 <= k < |pending| ==> pending[k] == Prepared([reqs[k]])
    modifies db
    ensures db.Valid() && db.nextId >= old(db.nextId) && read <= |reqs|
    ensures var run := InsertAll(old(db.rows), old(db.nextId), reqs);
            run.Some? && !ScanFails(|reqs|, faults) ==>
              db.rows == old(db.rows) + run.value && createdPosts == Some(MapSeq(run.value, ScanPost)) && err.None?
    ensures err.None? ==> InsertAll(old(db.rows), old(db.nextId), reqs).Some? && !ScanFails(|reqs|, faults)
    ensures err.Some? ==> createdPosts.None? && (err == Some(RowRejected) || err == Some(ScanFailure))
    ensures err == Some(ScanFailure) <==> ScanFaultFirst(old(db.rows), old(db.nextId), reqs, faults)
    ensures err == Some(RowRejected) ==> InsertAll(old(db.rows), old(db.nextId), reqs).None?
    ensures err == Some(ScanFailure) ==>
              && InsertAll(old(db.rows), old(db.nextId), reqs[..read]).Some?
              && db.rows == old(db.rows) + InsertAll(old(db.rows), old(db.nextId), reqs[..read]).value
              && db.nextId == old(db.nextId) + read
  {
    var saved, first := db.rows, db.nextId;
    ghost var out: seq<PostRow> := [];
    var scanned: seq<Post> := [];
    var i := 0;
    assert reqs[..0] == [];
    while i < |pending|
      invariant 0 <= i <= |pending|
      invariant db.Valid() && db.rows == saved + out && db.nextId == first + i
      invariant InsertAll(saved, first, reqs[..i]) == Some(out)
      invariant scanned == MapSeq(out, ScanPost)
      invariant !ScanFails(i, faults)
    {
      var row := ReadRow(db, pending[i], saved, first, reqs, i, out);
      if row.None? {
        RejectionFirst(saved, first, reqs, faults, i);
        return None, Some(RowRejected), i + 1;
      }
      if i in faults {
        assert ScanFaultFirst(saved, first, reqs, faults) && ScanFails(|reqs|, faults);
        return None, Some(ScanFailure), i + 1;
      }
      out := out + [row.value];
      scanned := scanned + [ScanPost(row.value)];
      i := i + 1;
    }
    assert reqs[..i] == reqs;
    return Some(scanned), None, i;
  }

  /** The deferred `batchRes.Close()`: the server has run the statements not
      read yet all the same, in order up to the first one rejected, and Close
      reports that rejection. */
  method CloseBatch(db: PostTable, pending: seq<Prepared>, ghost reqs: seq<NewPost>, read: nat,
                    ghost saved: seq<PostRow>, ghost first: int, ghost out: seq<PostRow>)
    returns (batchErr: Option<Error>)
    requires db.Valid() && |pending| == |reqs|
    requires forall k :: 0 <= k < |pending| ==> pending[k] == Prepared([reqs[k]])
    requires read <= |reqs| && db.rows == saved + out && db.nextId == first + read
    requires InsertAll(saved, first, reqs[..read]) == Some(out)
    modifies db
    ensures db.Valid() && db.nextId >= old(db.nextId)
    ensures batchErr.Some? <==> InsertAll(saved, first, reqs).None?
    ensures batchErr.Some? ==> batchErr == Some(RowRejected)
    ensures batchErr.None? ==> db.rows == saved + InsertAll(saved, first, reqs).value
  {
    var i := read;
    ghost var done := out;
    while i < |pending|
      invariant read <= i <= |pending|
      invariant db.Valid() && db.rows == saved + done && db.nextId == first + i
      invariant InsertAll(saved, first, reqs[..i]) == Some(done)
    {
      var row := ReadRow(db, pending[i], saved, first, reqs, i, done);
      if row.None? {
        return Some(RowRejected);
      }
      done := done + [row.value];
      i := i + 1;
    }
    assert reqs[..i] == reqs;
    return None;
  }

  /** CreatePostsBatch: in one transaction, one INSERT per post, sent as a
      batch and read back row by row.  All posts go in and come back in order;
      otherwise the transaction is rolled back and a nil slice comes back.
      The error is the rejection whenever some row is rejected, even one after
      a row that did not scan (the deferred Close drains the batch and its
      error replaces the scan error); it is the scan error only when every
      row went in. */
  method CreatePostsBatch(db: PostTable, threadId: int, forumSlug: string, posts: seq<Post>, created: Time, faults: set<nat>)
    returns (createdPosts: Option<seq<Post>>, err: Option<Error>)
    requires db.Valid()
    modifies db
    ensures db.Valid() && db.nextId >= old(db.nextId)
    ensures var run := InsertAll(old(db.rows), old(db.nextId), Requests(threadId, forumSlug, posts, created));
            && (run.Some? && !ScanFails(|posts|, faults) ==>
                  db.rows == old(db.rows) + run.value && createdPosts == Some(MapSeq(run.value, ScanPost)) && err.None?)
            && (run.None? ==> db.rows == old(db.rows) && createdPosts.None? && err == Some(RowRejected))
            && (run.Some? && ScanFails(|posts|, faults) ==>
                  db.rows == old(db.rows) && createdPosts.None? && err == Some(ScanFailure))
  {
    var saved, first := db.rows, db.nextId;
    var batch := QueueBatch(threadId, forumSlug, posts, created);
    var pending := SendBatch(batch);
    ghost var reqs := Requests(threadId, forumSlug, posts, created);
    var read;
    createdPosts, err, read := ReadBatch(db, pending, reqs, faults);
    if err == Some(ScanFailure) {
      // After a rejection Close reports that same rejection, so only a scan
      // error can be replaced.
      var batchErr := CloseBatch(db, pending, reqs, read, saved, first, InsertAll(saved, first, reqs[..read]).value);
      if batchErr.Some? {
        err := batchErr;
      }
    }
    if err.Some? {
      db.Rollback(saved);
    }
  }

  // ---------------------------------------------------------------- GetBySlug

  /** GetBySlug: the thread whose slug is that one, or the zero thread and
      ErrNoRows (an empty slug never matches). */
  function GetBySlug(db: ForumStore.ForumDb, slug: string): (r: Answer<Thread>)
    ensures r.err.None? <==> ForumStore.ThreadSlugTaken(db.threads, slug)
    ensures r.err.None? ==> r.value.Some? && r.value.value in db.threads && ForumStore.SlugIs(r.value.value, slug)
    ensures r.err.Some? ==> r == Answer(Some(ZeroThread), Some(NoRows))
  {
    ScanRow(ForumStore.SelectThreadBySlug(db, slug), (t: Thread) => t, ZeroThread)
  }
}
