/**
 * The forum-side tables (users, forums, threads, forum_users) and the
 * statements of the core that create or read forums and threads.  A thread
 * without a slug stores NULL, written "" here: `COALESCE(slug, '')` reads it
 * back as "", and `slug = $1` never matches it.
 */
module ForumStore {
  import opened Wrappers
  import opened Models
  import opened Sorting
  import opened ForumQueries
  import opened Driver

  /** The tables and the next values of the forums and threads id sequences. */
  datatype ForumDb = ForumDb(
    users: seq<User>,
    forums: seq<Forum>,
    threads: seq<Thread>,
    members: seq<Member>,
    nextForumId: int,
    nextThreadId: int)

  /** `(SELECT nickname FROM users WHERE nickname = $k)` is not NULL. */
  predicate UserExists(users: seq<User>, nickname: string)
  {
    exists u :: u in users && u.nickname == nickname
  }

  /** `(SELECT slug FROM forums WHERE slug = $k)` is not NULL. */
  predicate ForumExists(forums: seq<Forum>, slug: string)
  {
    exists f :: f in forums && f.slug == slug
  }

  /** `slug = $1` for a thread: a NULL slug equals nothing. */
  predicate SlugIs(t: Thread, slug: string)
  {
    t.slug != "" && t.slug == slug
  }

  predicate ThreadSlugTaken(threads: seq<Thread>, slug: string)
  {
    exists t :: t in threads && SlugIs(t, slug)
  }

  /** The constraints the statements rely on: one forum per slug, one thread
      per slug among the threads that have one, and every thread and every
      forum_users row names a forum that exists. */
  predicate Consistent(db: ForumDb)
  {
    && (forall i, j :: 0 <= i < j < |db.forums| ==> db.forums[i].slug != db.forums[j].slug)
    && (forall i, j :: 0 <= i < j < |db.threads| ==> !SlugIs(db.threads[j], db.threads[i].slug))
    && (forall t :: t in db.threads ==> ForumExists(db.forums, t.forum))
    && (forall m :: m in db.members ==> ForumExists(db.forums, m.forum))
  }

  /** In a consistent store a slug names at most one forum. */
  lemma OneForumPerSlug(db: ForumDb, f: Forum, g: Forum)
    requires Consistent(db) && f in db.forums && g in db.forums && f.slug == g.slug
    ensures f == g
  {
    var i :| 0 <= i < |db.forums| && db.forums[i] == f;
    var j :| 0 <= j < |db.forums| && db.forums[j] == g;
    assert !(i < j) && !(j < i);
  }

  /** In a consistent store a non-empty slug names at most one thread. */
  lemma OneThreadPerSlug(db: ForumDb, t: Thread, u: Thread, slug: string)
    requires Consistent(db) && t in db.threads && u in db.threads && SlugIs(t, slug) && SlugIs(u, slug)
    ensures t == u
  {
    var i :| 0 <= i < |db.threads| && db.threads[i] == t;
    var j :| 0 <= j < |db.threads| && db.threads[j] == u;
    assert !(i < j) && !(j < i);
  }

  /** The forum Create statement.  The id is drawn from the sequence whether
      or not the row goes in.  An unknown owner leaves "user" NULL, which is a
      not_null_violation (checked before uniqueness); a slug already taken is
      a unique_violation; otherwise the forum goes in with no posts and no
      threads. */
  function InsertForum(db: ForumDb, slug: string, title: string, user: string): (r: (ForumDb, Outcome<Forum>))
    ensures r.0 == db.(forums := r.0.forums, nextForumId := db.nextForumId + 1)
    ensures r.1 == Failed(PgError(NotNullViolation)) <==> !UserExists(db.users, user)
    ensures r.1 == Failed(PgError(UniqueViolation)) <==> UserExists(db.users, user) && ForumExists(db.forums, slug)
    ensures r.1.Rows? <==> UserExists(db.users, user) && !ForumExists(db.forums, slug)
    ensures r.1.Rows? ==> r.1.rows == [Forum(db.nextForumId, slug, title, user, 0, 0)] && r.0.forums == db.forums + r.1.rows
    ensures !r.1.Rows? ==> r.0.forums == db.forums
  {
    var drawn := db.(nextForumId := db.nextForumId + 1);
    if !UserExists(db.users, user) then (drawn, Failed(PgError(NotNullViolation)))
    else if ForumExists(db.forums, slug) then (drawn, Failed(PgError(UniqueViolation)))
    else
      var forum := Forum(db.nextForumId, slug, title, user, 0, 0);
      (drawn.(forums := db.forums + [forum]), Rows([forum]))
  }

  /** The forum Get statement: the forums with that slug. */
  function SelectForum(db: ForumDb, slug: string): (r: Outcome<Forum>)
    ensures r.Rows? && (forall f :: f in r.rows ==> f in db.forums && f.slug == slug)
    ensures |r.rows| > 0 <==> ForumExists(db.forums, slug)
  {
    var rows := Filter(db.forums, (f: Forum) => f.slug == slug);
    assert ForumExists(db.forums, slug) ==> exists f :: f in rows;
    Rows(rows)
  }

  /** The thread CreateThread statement.  The id is drawn whether or not the
      row goes in.  An unknown author or forum leaves a NOT NULL column NULL;
      a slug another thread already has is a unique_violation (an empty slug
      is stored as NULL and never conflicts); otherwise the thread goes in
      with no votes and RETURNING hands back the slug as given. */
  function InsertThread(db: ForumDb, slug: string, author: string, forum: string, title: string,
                        message: string, created: Time): (r: (ForumDb, Outcome<Thread>))
    ensures r.0 == db.(threads := r.0.threads, nextThreadId := db.nextThreadId + 1)
    ensures r.1 == Failed(PgError(NotNullViolation)) <==> !UserExists(db.users, author) || !ForumExists(db.forums, forum)
    ensures r.1 == Failed(PgError(UniqueViolation)) <==>
              UserExists(db.users, author) && ForumExists(db.forums, forum) && ThreadSlugTaken(db.threads, slug)
    ensures r.1.Rows? <==>
              UserExists(db.users, author) && ForumExists(db.forums, forum) && !ThreadSlugTaken(db.threads, slug)
    ensures r.1.Rows? ==>
              r.1.rows == [Thread(db.nextThreadId, slug, author, forum, title, message, created, 0)] &&
              r.0.threads == db.threads + r.1.rows
    ensures !r.1.Rows? ==> r.0.threads == db.threads
  {
    var drawn := db.(nextThreadId := db.nextThreadId + 1);
    if !UserExists(db.users, author) || !ForumExists(db.forums, forum) then (drawn, Failed(PgError(NotNullViolation)))
    else if ThreadSlugTaken(db.threads, slug) then (drawn, Failed(PgError(UniqueViolation)))
    else
      var thread := Thread(db.nextThreadId, slug, author, forum, title, message, created, 0);
      (drawn.(threads := db.threads + [thread]), Rows([thread]))
  }

  /** The thread GetBySlug statement: the threads whose slug is that one. */
  function SelectThreadBySlug(db: ForumDb, slug: string): (r: Outcome<Thread>)
    ensures r.Rows? && (forall t :: t in r.rows ==> t in db.threads && SlugIs(t, slug))
    ensures |r.rows| > 0 <==> ThreadSlugTaken(db.threads, slug)
  {
    var rows := Filter(db.threads, (t: Thread) => SlugIs(t, slug));
    assert ThreadSlugTaken(db.threads, slug) ==> exists t :: t in rows;
    Rows(rows)
  }

  /** Creating a forum keeps one forum per slug. */
  lemma InsertForumKeepsConsistent(db: ForumDb, slug: string, title: string, user: string)
    requires Consistent(db)
    ensures Consistent(InsertForum(db, slug, title, user).0)
  {
    var after := InsertForum(db, slug, title, user).0;
    if after.forums != db.forums {
      forall i, j | 0 <= i < j < |after.forums| ensures after.forums[i].slug != after.forums[j].slug {
        if j == |db.forums| {
          assert after.forums[i] in db.forums;
        }
      }
      forall x | ForumExists(db.forums, x) ensures ForumExists(after.forums, x) {
        var f :| f in db.forums && f.slug == x;
        assert f in after.forums;
      }
    }
  }

  /** Creating a thread keeps one thread per slug. */
  lemma InsertThreadKeepsConsistent(db: ForumDb, slug: string, author: string, forum: string, title: string,
                                    message: string, created: Time)
    requires Consistent(db)
    ensures Consistent(InsertThread(db, slug, author, forum, title, message, created).0)
  {
    var after := InsertThread(db, slug, author, forum, title, message, created).0;
    if after.threads != db.threads {
      forall i, j | 0 <= i < j < |after.threads| ensures !SlugIs(after.threads[j], after.threads[i].slug) {
        if j == |db.threads| {
          assert after.threads[i] in db.threads;
        }
      }
      assert forall t :: t in after.threads ==> t in db.threads || t.forum == forum;
    }
  }
}
