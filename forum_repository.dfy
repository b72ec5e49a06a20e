/**
 * The forum repository (app/repositories/forum.go): creating and reading a
 * forum, creating a thread, and the two listings of a forum, whose statement
 * is the base query filtered to the forum's slug followed by the suffix
 * picked from `since` and `desc`.  The positions of rows that `rows.Scan`
 * cannot read are a parameter.
 */
module ForumRepository {
  import opened Wrappers
  import opened Models
  import opened ForumQueries
  import opened ForumStore
  import opened Driver

  // ---------------------------------------------------------------- Create, Get, CreateThread

  /** RETURNING slug, title, "user", posts, threads: there is no id column,
      so the scanned forum keeps id 0. */
  function CreatedForumColumns(f: Forum): Forum
  {
    Forum(0, f.slug, f.title, f.user, f.posts, f.threads)
  }

  /** Create: the forum as RETURNING gives it back, or the zero forum with
      the statement's error. */
  function Create(db: ForumDb, forum: Forum): (r: (ForumDb, Answer<Forum>))
    ensures r.1.err.None? <==> UserExists(db.users, forum.user) && !ForumExists(db.forums, forum.slug)
    ensures r.1.err.None? ==> r.1.value == Some(Forum(0, forum.slug, forum.title, forum.user, 0, 0))
    ensures r.1.err.Some? ==> r.1.value == Some(ZeroForum) && r.0.forums == db.forums
    ensures r.1.err == Some(PgError(NotNullViolation)) <==> !UserExists(db.users, forum.user)
    ensures r.1.err == Some(PgError(UniqueViolation)) <==> UserExists(db.users, forum.user) && ForumExists(db.forums, forum.slug)
  {
    var (after, outcome) := InsertForum(db, forum.slug, forum.title, forum.user);
    (after, ScanRow(outcome, CreatedForumColumns, ZeroForum))
  }

  /** Get: the forum with that slug, or the zero forum and ErrNoRows. */
  function Get(db: ForumDb, slug: string): (r: Answer<Forum>)
    ensures r.err.None? <==> ForumExists(db.forums, slug)
    ensures r.err.None? ==> r.value.Some? && r.value.value in db.forums && r.value.value.slug == slug
    ensures r.err.Some? ==> r == Answer(Some(ZeroForum), Some(NoRows))
  {
    ScanRow(SelectForum(db, slug), (f: Forum) => f, ZeroForum)
  }

  /** CreateThread: the thread as RETURNING gives it back (with the slug as
      given), or the zero thread with the statement's error. */
  function CreateThread(db: ForumDb, thread: Thread): (r: (ForumDb, Answer<Thread>))
    ensures r.1.err.None? <==>
              UserExists(db.users, thread.author) && ForumExists(db.forums, thread.forum) && !ThreadSlugTaken(db.threads, thread.slug)
    ensures r.1.err.None? ==>
              r.1.value == Some(thread.(id := db.nextThreadId, votes := 0)) &&
              r.0.threads == db.threads + [thread.(id := db.nextThreadId, votes := 0)]
    ensures r.1.err.Some? ==> r.1.value == Some(ZeroThread) && r.0.threads == db.threads
    ensures r.1.err == Some(PgError(NotNullViolation)) <==>
              !UserExists(db.users, thread.author) || !ForumExists(db.forums, thread.forum)
    ensures r.1.err == Some(PgError(UniqueViolation)) <==>
              UserExists(db.users, thread.author) && ForumExists(db.forums, thread.forum) && ThreadSlugTaken(db.threads, thread.slug)
  {
    var (after, outcome) :=
      InsertThread(db, thread.slug, thread.author, thread.forum, thread.title, thread.message, thread.created);
    (after, ScanRow(outcome, (t: Thread) => t, ZeroThread))
  }

  // ---------------------------------------------------------------- GetThreads

  /** The four thread suffixes, named as in the source.  The names are
      crossed: the keys without "Since" carry the `created` bound, the keys
      with "Since" have none.  The code picks them consistently with that. */
  datatype ThreadSuffix = GetThreadsDesc | GetThreadsSinceDesc | GetThreadsNoDesc | GetThreadsSinceNoDesc

  /** The suffix adds `AND created <= $2` or `AND created >= $2`. */
  predicate ThreadBounded(s: ThreadSuffix)
  {
    s == GetThreadsDesc || s == GetThreadsNoDesc
  }

  /** The suffix orders by `created DESC`. */
  predicate ThreadDescending(s: ThreadSuffix)
  {
    s == GetThreadsDesc || s == GetThreadsSinceDesc
  }

  /** The suffix GetThreads appends and the arguments it passes: a since
      other than the zero time takes the bounded suffix with (slug, since,
      limit); the zero time takes the unbounded one with (slug, limit). */
  function ChooseThreadQuery(slug: string, params: ForumQueryParams): (r: (ThreadSuffix, seq<Value>))
    ensures ThreadBounded(r.0) <==> params.since != ZeroTime
    ensures ThreadDescending(r.0) <==> params.desc
    ensures r.1 == if params.since != ZeroTime then [TextValue(slug), TimeValue(params.since), IntValue(params.limit)]
                   else [TextValue(slug), IntValue(params.limit)]
  {
    if params.since != ZeroTime then
      (if params.desc then GetThreadsDesc else GetThreadsNoDesc, [TextValue(slug), TimeValue(params.since), IntValue(params.limit)])
    else
      (if params.desc then GetThreadsSinceDesc else GetThreadsSinceNoDesc, [TextValue(slug), IntValue(params.limit)])
  }

  /** What the store does with the base thread query plus a suffix: refuses
      arguments that do not fit the placeholders, fails a negative LIMIT while
      running, and otherwise yields the listing. */
  function RunThreadQuery(threads: seq<Thread>, s: ThreadSuffix, args: seq<Value>): Outcome<Thread>
  {
    if |args| != (if ThreadBounded(s) then 3 else 2) then Refused(DriverError("wrong number of arguments"))
    else if !args[0].TextValue? || (ThreadBounded(s) && !args[1].TimeValue?) || !args[|args| - 1].IntValue? then
      Refused(DriverError("cannot encode argument"))
    else
      var limit := args[|args| - 1].i;
      if limit < 0 then Failed(PgError(NegativeLimit))
      else Rows(ForumThreads(threads, args[0].s, if ThreadBounded(s) then Some(args[1].t) else None, ThreadDescending(s), limit))
  }

  /** The thread listing a request asks for: the zero time means no bound. */
  function ThreadListing(db: ForumDb, slug: string, params: ForumQueryParams): seq<Thread>
    requires params.limit >= 0
  {
    ForumThreads(db.threads, slug, if params.since == ZeroTime then None else Some(params.since), params.desc, params.limit)
  }

  /** The statement GetThreads assembles runs the requested listing, or fails
      on a negative limit. */
  lemma GetThreadsRunsListing(db: ForumDb, slug: string, params: ForumQueryParams)
    ensures var (s, args) := ChooseThreadQuery(slug, params);
            RunThreadQuery(db.threads, s, args) ==
              if params.limit < 0 then Failed(PgError(NegativeLimit)) else Rows(ThreadListing(db, slug, params))
  {
  }

  /** GetThreads as written: `rows.Err()` is never consulted, so a statement
      that fails while running reads as an empty listing without error. */
  method GetThreads(db: ForumDb, slug: string, params: ForumQueryParams, faults: set<nat>)
    returns (threads: Option<seq<Thread>>, err: Option<Error>)
    ensures params.limit < 0 ==> threads == Some([]) && err.None?
    ensures params.limit >= 0 && ScanFails(|ThreadListing(db, slug, params)|, faults) ==> threads.None? && err == Some(ScanFailure)
    ensures params.limit >= 0 && !ScanFails(|ThreadListing(db, slug, params)|, faults) ==> threads == Some(ThreadListing(db, slug, params)) && err.None?
  {
    var (s, args) := ChooseThreadQuery(slug, params);
    GetThreadsRunsListing(db, slug, params);
    var outcome := RunThreadQuery(db.threads, s, args);
    var scan := (t: Thread) => t;
    threads, err := ListIgnoringStreamError(outcome, scan, faults);
    if params.limit >= 0 {
      var listing := ThreadListing(db, slug, params);
      assert MapSeq(listing, scan) == listing;
    }
  }

  /** GetThreads followed by the `rows.Err()` check: a negative limit is
      reported. */
  method GetThreadsChecked(db: ForumDb, slug: string, params: ForumQueryParams, faults: set<nat>)
    returns (threads: Option<seq<Thread>>, err: Option<Error>)
    ensures params.limit < 0 ==> threads == Some([]) && err == Some(PgError(NegativeLimit))
    ensures params.limit >= 0 && ScanFails(|ThreadListing(db, slug, params)|, faults) ==> threads.None? && err == Some(ScanFailure)
    ensures params.limit >= 0 && !ScanFails(|ThreadListing(db, slug, params)|, faults) ==> threads == Some(ThreadListing(db, slug, params)) && err.None?
  {
    var (s, args) := ChooseThreadQuery(slug, params);
    GetThreadsRunsListing(db, slug, params);
    var outcome := RunThreadQuery(db.threads, s, args);
    var scan := (t: Thread) => t;
    threads, err := ListCheckingStreamError(outcome, scan, faults);
    if params.limit >= 0 {
      var listing := ThreadListing(db, slug, params);
      assert MapSeq(listing, scan) == listing;
    }
  }

  // ---------------------------------------------------------------- GetUsers

  /** The four user suffixes, named as in the source; here the keys with
      "Since" are the ones with the nickname bound. */
  datatype UserSuffix = GetUsersDesc | GetUsersSinceDesc | GetUsersNoDesc | GetUsersSinceNoDesc

  /** The suffix adds `AND u.nickname < $2` or `AND u.nickname > $2`. */
  predicate UserBounded(s: UserSuffix)
  {
    s == GetUsersSinceDesc || s == GetUsersSinceNoDesc
  }

  /** The suffix orders by `u.nickname DESC`. */
  predicate UserDescending(s: UserSuffix)
  {
    s == GetUsersDesc || s == GetUsersSinceDesc
  }

  /** The suffix GetUsers appends and the arguments it passes: a non-empty
      since takes the bounded suffix with (slug, since, limit); an empty one
      the unbounded suffix with (slug, limit). */
  function ChooseUserQuery(slug: string, params: ForumUserQueryParams): (r: (UserSuffix, seq<Value>))
    ensures UserBounded(r.0) <==> params.since != ""
    ensures UserDescending(r.0) <==> params.desc
    ensures r.1 == if params.since != "" then [TextValue(slug), TextValue(params.since), IntValue(params.limit)]
                   else [TextValue(slug), IntValue(params.limit)]
  {
    if params.since != "" then
      (if params.desc then GetUsersSinceDesc else GetUsersSinceNoDesc, [TextValue(slug), TextValue(params.since), IntValue(params.limit)])
    else
      (if params.desc then GetUsersDesc else GetUsersNoDesc, [TextValue(slug), IntValue(params.limit)])
  }

  /** What the store does with the base user query plus a suffix. */
  function RunUserQuery(db: ForumDb, s: UserSuffix, args: seq<Value>): Outcome<User>
  {
    if |args| != (if UserBounded(s) then 3 else 2) then Refused(DriverError("wrong number of arguments"))
    else if !args[0].TextValue? || (UserBounded(s) && !args[1].TextValue?) || !args[|args| - 1].IntValue? then
      Refused(DriverError("cannot encode argument"))
    else
      var limit := args[|args| - 1].i;
      if limit < 0 then Failed(PgError(NegativeLimit))
      else Rows(ForumUsers(db.members, db.users, args[0].s, if UserBounded(s) then Some(args[1].s) else None, UserDescending(s), limit))
  }

  /** The user listing a request asks for: an empty since means no bound. */
  function UserListing(db: ForumDb, slug: string, params: ForumUserQueryParams): seq<User>
    requires params.limit >= 0
  {
    ForumUsers(db.members, db.users, slug, if params.since == "" then None else Some(params.since), params.desc, params.limit)
  }

  /** The statement GetUsers assembles runs the requested listing, or fails
      on a negative limit. */
  lemma GetUsersRunsListing(db: ForumDb, slug: string, params: ForumUserQueryParams)
    ensures var (s, args) := ChooseUserQuery(slug, params);
            RunUserQuery(db, s, args) ==
              if params.limit < 0 then Failed(PgError(NegativeLimit)) else Rows(UserListing(db, slug, params))
  {
  }

  /** GetUsers as written: `rows.Err()` is never consulted. */
  method GetUsers(db: ForumDb, slug: string, params: ForumUserQueryParams, faults: set<nat>)
    returns (users: Option<seq<User>>, err: Option<Error>)
    ensures params.limit < 0 ==> users == Some([]) && err.None?
    ensures params.limit >= 0 && ScanFails(|UserListing(db, slug, params)|, faults) ==> users.None? && err == Some(ScanFailure)
    ensures params.limit >= 0 && !ScanFails(|UserListing(db, slug, params)|, faults) ==> users == Some(UserListing(db, slug, params)) && err.None?
  {
    var (s, args) := ChooseUserQuery(slug, params);
    GetUsersRunsListing(db, slug, params);
    var outcome := RunUserQuery(db, s, args);
    var scan := (u: User) => u;
    users, err := ListIgnoringStreamError(outcome, scan, faults);
    if params.limit >= 0 {
      var listing := UserListing(db, slug, params);
      assert MapSeq(listing, scan) == listing;
    }
  }

  /** GetUsers followed by the `rows.Err()` check: a negative limit is
      reported. */
  method GetUsersChecked(db: ForumDb, slug: string, params: ForumUserQueryParams, faults: set<nat>)
    returns (users: Option<seq<User>>, err: Option<Error>)
    ensures params.limit < 0 ==> users == Some([]) && err == Some(PgError(NegativeLimit))
    ensures params.limit >= 0 && ScanFails(|UserListing(db, slug, params)|, faults) ==> users.None? && err == Some(ScanFailure)
    ensures params.limit >= 0 && !ScanFails(|UserListing(db, slug, params)|, faults) ==> users == Some(UserListing(db, slug, params)) && err.None?
  {
    var (s, args) := ChooseUserQuery(slug, params);
    GetUsersRunsListing(db, slug, params);
    var outcome := RunUserQuery(db, s, args);
    var scan := (u: User) => u;
    users, err := ListCheckingStreamError(outcome, scan, faults);
    if params.limit >= 0 {
      var listing := UserListing(db, slug, params);
      assert MapSeq(listing, scan) == listing;
    }
  }
}
