/**
 * The forum use case (app/usecases/forum.go): it turns the store's errors
 * into the application's.  A not_null_violation on create means an unknown
 * user (or forum), a unique_violation means the forum or thread already exists
 * and is answered with the stored one, any other database error is an internal
 * error, and an error that does not come from the database passes through.  A
 * listing that comes back empty is followed by a check that the forum exists.
 */
module ForumUseCase {
  import opened Wrappers
  import opened Models
  import opened ForumQueries
  import opened ForumStore
  import opened Driver
  import ForumRepository
  import ThreadRepository

  // ---------------------------------------------------------------- error translation

  /** The switch Create and CreateThread run over the repository's error.
      `existing` is the read by slug that a unique_violation triggers.  No
      SQLSTATE reaches the caller: a database error becomes `notFound`,
      `alreadyExists` or ServerInternal, and any other error is handed on with
      the repository's value. */
  function TranslateCreate<T>(created: Answer<T>, existing: Answer<T>, notFound: Error, alreadyExists: Error): (r: Answer<T>)
    requires !notFound.PgError? && !alreadyExists.PgError?
    ensures r.err.Some? ==> !r.err.value.PgError?
    ensures created.err.None? || !created.err.value.PgError? ==> r == created
    ensures created.err == Some(PgError(NotNullViolation)) ==> r == Answer(None, Some(notFound))
    ensures created.err == Some(PgError(UniqueViolation)) ==>
              r.value == existing.value && r.err == Some(if existing.err.None? then alreadyExists else ServerInternal)
    ensures created.err.Some? && created.err.value.PgError? &&
            created.err.value.sqlState != NotNullViolation && created.err.value.sqlState != UniqueViolation ==>
              r == Answer(created.value, Some(ServerInternal))
  {
    match created.err
    case None => created
    case Some(e) =>
      if !e.PgError? then created
      else if e.sqlState == NotNullViolation then Answer(None, Some(notFound))
      else if e.sqlState == UniqueViolation then
        if existing.err.Some? then Answer(existing.value, Some(ServerInternal))
        else Answer(existing.value, Some(alreadyExists))
      else Answer(created.value, Some(ServerInternal))
  }

  /** The mapping of a single-row read: ErrNoRows becomes `notFound`, any
      other error ServerInternal; the value is kept. */
  function TranslateRead<T>(read: Answer<T>, notFound: Error): (r: Answer<T>)
    ensures r.value == read.value
    ensures r.err.None? <==> read.err.None?
    ensures read.err == Some(NoRows) ==> r.err == Some(notFound)
    ensures read.err.Some? && read.err != Some(NoRows) ==> r.err == Some(ServerInternal)
  {
    match read.err
    case None => read
    case Some(e) => Answer(read.value, Some(if e == NoRows then notFound else ServerInternal))
  }

  // ---------------------------------------------------------------- Create

  /** Create: insert the forum; on a unique_violation read the stored forum
      by slug from the store as the failed insert left it. */
  function Create(db: ForumDb, forum: Forum): (ForumDb, Answer<Forum>)
  {
    var (after, created) := ForumRepository.Create(db, forum);
    (after, TranslateCreate(created, ForumRepository.Get(after, forum.slug), NotFoundForumUser, ForumAlreadyExists))
  }

  /** What Create does, by the state of the store: an unknown owner is
      NotFoundForumUser with no forum; a new slug creates the forum (handed
      back with no id, as RETURNING omits it); a slug in use answers the stored
      forum with ForumAlreadyExists.  It never reports an internal error, and
      it keeps the store consistent. */
  lemma CreateOutcomes(db: ForumDb, forum: Forum)
    ensures var (after, r) := Create(db, forum);
            && after == db.(forums := after.forums, nextForumId := db.nextForumId + 1)
            && r.err != Some(ServerInternal)
            && (!UserExists(db.users, forum.user) ==>
                  r == Answer(None, Some(NotFoundForumUser)) && after.forums == db.forums)
            && (UserExists(db.users, forum.user) && !ForumExists(db.forums, forum.slug) ==>
                  && r == Answer(Some(Forum(0, forum.slug, forum.title, forum.user, 0, 0)), None)
                  && after.forums == db.forums + [Forum(db.nextForumId, forum.slug, forum.title, forum.user, 0, 0)])
            && (UserExists(db.users, forum.user) && ForumExists(db.forums, forum.slug) ==>
                  && r.err == Some(ForumAlreadyExists) && after.forums == db.forums
                  && r.value.Some? && r.value.value in db.forums && r.value.value.slug == forum.slug)
            && (Consistent(db) ==> Consistent(after))
  {
    if Consistent(db) {
      InsertForumKeepsConsistent(db, forum.slug, forum.title, forum.user);
    }
  }

  /** In a consistent store the forum Create answers on a conflict is the
      one forum that has the slug. */
  lemma CreateConflictAnswersStored(db: ForumDb, forum: Forum, stored: Forum)
    requires Consistent(db) && UserExists(db.users, forum.user)
    requires stored in db.forums && stored.slug == forum.slug
    ensures Create(db, forum).1 == Answer(Some(stored), Some(ForumAlreadyExists))
  {
    CreateOutcomes(db, forum);
    OneForumPerSlug(db, Create(db, forum).1.value.value, stored);
  }

  /** Creating the same forum twice: the first call answers it without an
      id, the second answers the stored row, with its id, and
      ForumAlreadyExists. */
  lemma CreateTwice(db: ForumDb, forum: Forum)
    requires UserExists(db.users, forum.user) && !ForumExists(db.forums, forum.slug)
    ensures var (after, first) := Create(db, forum);
            && first == Answer(Some(Forum(0, forum.slug, forum.title, forum.user, 0, 0)), None)
            && Create(after, forum).1 ==
                 Answer(Some(Forum(db.nextForumId, forum.slug, forum.title, forum.user, 0, 0)), Some(ForumAlreadyExists))
  {
    CreateOutcomes(db, forum);
    var after := Create(db, forum).0;
    var stored := Forum(db.nextForumId, forum.slug, forum.title, forum.user, 0, 0);
    assert stored in after.forums;
    CreateOutcomes(after, forum);
    var again := Create(after, forum).1.value.value;
    assert again in after.forums && again.slug == forum.slug;
    assert again !in db.forums;
  }

  // ---------------------------------------------------------------- Get

  /** Get: the forum with that slug, or the zero forum and NotFoundForum. */
  function Get(db: ForumDb, slug: string): (r: Answer<Forum>)
    ensures r.err.None? <==> ForumExists(db.forums, slug)
    ensures r.err.None? ==> r.value.Some? && r.value.value in db.forums && r.value.value.slug == slug
    ensures r.err.Some? ==> r == Answer(Some(ZeroForum), Some(NotFoundForum))
  {
    TranslateRead(ForumRepository.Get(db, slug), NotFoundForum)
  }

  /** In a consistent store Get answers the one forum with the slug. */
  lemma GetAnswersStored(db: ForumDb, stored: Forum)
    requires Consistent(db) && stored in db.forums
    ensures Get(db, stored.slug) == Answer(Some(stored), None)
  {
    OneForumPerSlug(db, Get(db, stored.slug).value.value, stored);
  }

  // ---------------------------------------------------------------- CreateThread

  /** CreateThread: insert the thread; on a unique_violation read the stored
      thread by slug. */
  function CreateThread(db: ForumDb, thread: Thread): (ForumDb, Answer<Thread>)
  {
    var (after, created) := ForumRepository.CreateThread(db, thread);
    (after, TranslateCreate(created, ThreadRepository.GetBySlug(after, thread.slug), ThreadUserOrForumNotFound, ThreadAlreadyExists))
  }

  /** What CreateThread does, by the state of the store: an unknown author or
      forum is ThreadUserOrForumNotFound with no thread; a free slug (or none)
      creates the thread with the next id and no votes; a slug in use answers
      the stored thread with ThreadAlreadyExists.  It never reports an internal
      error, and it keeps the store consistent. */
  lemma CreateThreadOutcomes(db: ForumDb, thread: Thread)
    ensures var (after, r) := CreateThread(db, thread);
            var known := UserExists(db.users, thread.author) && ForumExists(db.forums, thread.forum);
            && after == db.(threads := after.threads, nextThreadId := db.nextThreadId + 1)
            && r.err != Some(ServerInternal)
            && (!known ==> r == Answer(None, Some(ThreadUserOrForumNotFound)) && after.threads == db.threads)
            && (known && !ThreadSlugTaken(db.threads, thread.slug) ==>
                  && r == Answer(Some(thread.(id := db.nextThreadId, votes := 0)), None)
                  && after.threads == db.threads + [thread.(id := db.nextThreadId, votes := 0)])
            && (known && ThreadSlugTaken(db.threads, thread.slug) ==>
                  && r.err == Some(ThreadAlreadyExists) && after.threads == db.threads
                  && r.value.Some? && r.value.value in db.threads && SlugIs(r.value.value, thread.slug))
            && (Consistent(db) ==> Consistent(after))
  {
    if Consistent(db) {
      InsertThreadKeepsConsistent(db, thread.slug, thread.author, thread.forum, thread.title, thread.message, thread.created);
    }
  }

  /** A thread without a slug never conflicts: once its author and forum
      exist it is always created. */
  lemma CreateThreadWithoutSlug(db: ForumDb, thread: Thread)
    requires thread.slug == ""
    requires UserExists(db.users, thread.author) && ForumExists(db.forums, thread.forum)
    ensures CreateThread(db, thread).1 == Answer(Some(thread.(id := db.nextThreadId, votes := 0)), None)
  {
    CreateThreadOutcomes(db, thread);
  }

  /** In a consistent store the thread CreateThread answers on a conflict is
      the one thread that has the slug. */
  lemma CreateThreadConflictAnswersStored(db: ForumDb, thread: Thread, stored: Thread)
    requires Consistent(db) && UserExists(db.users, thread.author) && ForumExists(db.forums, thread.forum)
    requires stored in db.threads && SlugIs(stored, thread.slug)
    ensures CreateThread(db, thread).1 == Answer(Some(stored), Some(ThreadAlreadyExists))
  {
    CreateThreadOutcomes(db, thread);
    OneThreadPerSlug(db, CreateThread(db, thread).1.value.value, stored, thread.slug);
  }

  // ---------------------------------------------------------------- GetThreads, GetUsers

  /** A forum that does not exist has no threads and no users in a
      consistent store, so its listings are empty. */
  lemma MissingForumListsNothing(db: ForumDb, slug: string)
    requires Consistent(db) && !ForumExists(db.forums, slug)
    ensures forall since, desc, limit :: ForumThreads(db.threads, slug, since, desc, limit) == []
    ensures forall since, desc, limit :: ForumUsers(db.members, db.users, slug, since, desc, limit) == []
  {
    forall since, desc, limit ensures ForumThreads(db.threads, slug, since, desc, limit) == [] {
      var r := ForumThreads(db.threads, slug, since, desc, limit);
      ForumThreadsFacts(db.threads, slug, since, desc, limit);
      assert forall t :: t in r ==> ForumExists(db.forums, slug);
    }
    forall since, desc, limit ensures ForumUsers(db.members, db.users, slug, since, desc, limit) == [] {
      var r := ForumUsers(db.members, db.users, slug, since, desc, limit);
      ForumUsersFacts(db.members, db.users, slug, since, desc, limit);
      assert forall u :: u in r ==> Member(slug, u.nickname) in db.members;
      assert forall u :: u in r ==> ForumExists(db.forums, slug);
    }
  }

  /** GetThreads: a repository error is ServerInternal; an empty listing is
      checked against the forum, whose absence is NotFoundForum; a non-empty
      one is returned unchecked.  The repository it calls never reports a
      negative limit, so that too reads as an empty listing.  In a consistent
      store the answer is NotFoundForum exactly when the forum does not
      exist. */
  method GetThreads(db: ForumDb, slug: string, params: ForumQueryParams, faults: set<nat>)
    returns (threads: Option<seq<Thread>>, err: Option<Error>)
    ensures params.limit < 0 ==> threads == Some([]) && err == Get(db, slug).err
    ensures params.limit >= 0 && ScanFails(|ForumRepository.ThreadListing(db, slug, params)|, faults) ==>
              threads.None? && err == Some(ServerInternal)
    ensures params.limit >= 0 && !ScanFails(|ForumRepository.ThreadListing(db, slug, params)|, faults) ==>
              && threads == Some(ForumRepository.ThreadListing(db, slug, params))
              && (err.Some? <==> ForumRepository.ThreadListing(db, slug, params) == [] && !ForumExists(db.forums, slug))
    ensures err.Some? && err != Some(ServerInternal) ==> err == Some(NotFoundForum) && !ForumExists(db.forums, slug)
    ensures Consistent(db) && threads.Some? ==> (err.Some? <==> !ForumExists(db.forums, slug))
  {
    threads, err := ForumRepository.GetThreads(db, slug, params, faults);
    if err.Some? {
      err := Some(ServerInternal);
      return;
    }
    if |threads.value| == 0 {
      var found := Get(db, slug);
      err := found.err;
    }
    if Consistent(db) && !ForumExists(db.forums, slug) {
      MissingForumListsNothing(db, slug);
    }
  }

  /** GetThreads over the repository that checks `rows.Err()`: a negative
      limit is a repository error, hence ServerInternal. */
  method GetThreadsChecked(db: ForumDb, slug: string, params: ForumQueryParams, faults: set<nat>)
    returns (threads: Option<seq<Thread>>, err: Option<Error>)
    ensures params.limit < 0 ==> threads == Some([]) && err == Some(ServerInternal)
    ensures params.limit >= 0 && ScanFails(|ForumRepository.ThreadListing(db, slug, params)|, faults) ==>
              threads.None? && err == Some(ServerInternal)
    ensures params.limit >= 0 && !ScanFails(|ForumRepository.ThreadListing(db, slug, params)|, faults) ==>
              && threads == Some(ForumRepository.ThreadListing(db, slug, params))
              && (err.Some? <==> ForumRepository.ThreadListing(db, slug, params) == [] && !ForumExists(db.forums, slug))
              && (err.Some? ==> err == Some(NotFoundForum))
              && (Consistent(db) ==> (err.Some? <==> !ForumExists(db.forums, slug)))
  {
    threads, err := ForumRepository.GetThreadsChecked(db, slug, params, faults);
    if err.Some? {
      err := Some(ServerInternal);
      return;
    }
    if |threads.value| == 0 {
      var found := Get(db, slug);
      err := found.err;
    }
    if Consistent(db) && !ForumExists(db.forums, slug) {
      MissingForumListsNothing(db, slug);
    }
  }

  /** GetUsers: the same translation for the forum's user listing, over the
      repository that never reports a negative limit. */
  method GetUsers(db: ForumDb, slug: string, params: ForumUserQueryParams, faults: set<nat>)
    returns (users: Option<seq<User>>, err: Option<Error>)
    ensures params.limit < 0 ==> users == Some([]) && err == Get(db, slug).err
    ensures params.limit >= 0 && ScanFails(|ForumRepository.UserListing(db, slug, params)|, faults) ==>
              users.None? && err == Some(ServerInternal)
    ensures params.limit >= 0 && !ScanFails(|ForumRepository.UserListing(db, slug, params)|, faults) ==>
              && users == Some(ForumRepository.UserListing(db, slug, params))
              && (err.Some? <==> ForumRepository.UserListing(db, slug, params) == [] && !ForumExists(db.forums, slug))
    ensures err.Some? && err != Some(ServerInternal) ==> err == Some(NotFoundForum) && !ForumExists(db.forums, slug)
    ensures Consistent(db) && users.Some? ==> (err.Some? <==> !ForumExists(db.forums, slug))
  {
    users, err := ForumRepository.GetUsers(db, slug, params, faults);
    if err.Some? {
      err := Some(ServerInternal);
      return;
    }
    if |users.value| == 0 {
      var found := Get(db, slug);
      err := found.err;
    }
    if Consistent(db) && !ForumExists(db.forums, slug) {
      MissingForumListsNothing(db, slug);
    }
  }

  /** GetUsers over the repository that checks `rows.Err()`. */
  method GetUsersChecked(db: ForumDb, slug: string, params: ForumUserQueryParams, faults: set<nat>)
    returns (users: Option<seq<User>>, err: Option<Error>)
    ensures params.limit < 0 ==> users == Some([]) && err == Some(ServerInternal)
    ensures params.limit >= 0 && ScanFails(|ForumRepository.UserListing(db, slug, params)|, faults) ==>
              users.None? && err == Some(ServerInternal)
    ensures params.limit >= 0 && !ScanFails(|ForumRepository.UserListing(db, slug, params)|, faults) ==>
              && users == Some(ForumRepository.UserListing(db, slug, params))
              && (err.Some? <==> ForumRepository.UserListing(db, slug, params) == [] && !ForumExists(db.forums, slug))
              && (err.Some? ==> err == Some(NotFoundForum))
              && (Consistent(db) ==> (err.Some? <==> !ForumExists(db.forums, slug)))
  {
    users, err := ForumRepository.GetUsersChecked(db, slug, params, faults);
    if err.Some? {
      err := Some(ServerInternal);
      return;
    }
    if |users.value| == 0 {
      var found := Get(db, slug);
      err := found.err;
    }
    if Consistent(db) && !ForumExists(db.forums, slug) {
      MissingForumListsNothing(db, slug);
    }
  }
}
