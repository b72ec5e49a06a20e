/**
 * The partial updates of the store: editing a post, patching a user or a
 * thread (a blank field keeps the stored value), and the vote upsert.  Every
 * UPDATE changes all rows its WHERE clause matches and hands back the first
 * of them; no match is pgx.ErrNoRows.
 */
module Updates {
  import opened Wrappers
  import opened Models
  import opened PostStore

  /** `COALESCE(NULLIF(given, ''), stored)` */
  function Coalesce(given: string, stored: string): string
  {
    if given == "" then stored else given
  }

  /** The rows of `table`, with `change` applied to each row `matches` selects. */
  function UpdateWhere<T>(table: seq<T>, matches: T -> bool, change: T -> T): (r: seq<T>)
    ensures |r| == |table|
    ensures forall i :: 0 <= i < |table| ==> r[i] == if matches(table[i]) then change(table[i]) else table[i]
  {
    if table == [] then []
    else [if matches(table[0]) then change(table[0]) else table[0]] + UpdateWhere(table[1..], matches, change)
  }

  /** The position of the first row `matches` selects. */
  function FirstMatch<T>(table: seq<T>, matches: T -> bool): (k: Option<nat>)
    ensures k.Some? ==> k.value < |table| && matches(table[k.value]) &&
                        forall i :: 0 <= i < k.value ==> !matches(table[i])
    ensures k.None? ==> forall i :: 0 <= i < |table| ==> !matches(table[i])
  {
    if table == [] then None
    else if matches(table[0]) then Some(0)
    else match FirstMatch(table[1..], matches)
      case None => None
      case Some(k) => Some(k + 1)
  }

  /** An UPDATE ... RETURNING read through QueryRow: the new table and the first
      updated row, or None (ErrNoRows) when no row matches. */
  function UpdateReturning<T>(table: seq<T>, matches: T -> bool, change: T -> T): (r: Option<(seq<T>, T)>)
    ensures r.None? <==> forall i :: 0 <= i < |table| ==> !matches(table[i])
    ensures r.Some? ==> r.value.0 == UpdateWhere(table, matches, change)
    ensures r.Some? ==> exists k :: 0 <= k < |table| && matches(table[k]) && r.value.1 == change(table[k])
  {
    match FirstMatch(table, matches)
    case None => None
    case Some(k) => Some((UpdateWhere(table, matches, change), change(table[k])))
  }

  // ---------------------------------------------------------------- posts

  /** The edit the post Update statement makes to one row. */
  function EditPost(row: PostRow, message: string): (r: PostRow)
    ensures message != "" ==> r.message == message
    ensures message == "" ==> r.message == row.message
    ensures r.isEdited <==> row.isEdited || (message != "" && message != row.message)
    ensures r == row.(message := r.message, isEdited := r.isEdited)
  {
    row.(message := Coalesce(message, row.message),
         isEdited := row.isEdited || (!row.isEdited && message != "" && message != row.message))
  }

  /** Sending the same edit twice is the same as sending it once. */
  lemma EditPostIdempotent(row: PostRow, message: string)
    ensures EditPost(EditPost(row, message), message) == EditPost(row, message)
  {
    var once := EditPost(row, message);
    assert once.isEdited == EditPost(once, message).isEdited;
  }

  /** A post after a series of edits, oldest first. */
  function EditAll(row: PostRow, messages: seq<string>): (r: PostRow)
    ensures r.id == row.id && r.path == row.path && r.parent == row.parent && r.thread == row.thread
  {
    if messages == [] then row
    else EditPost(EditAll(row, messages[..|messages| - 1]), messages[|messages| - 1])
  }

  /** Edit `k` of the series actually changed the message. */
  predicate ChangedAt(row: PostRow, messages: seq<string>, k: nat)
    requires k < |messages|
  {
    messages[k] != "" && messages[k] != EditAll(row, messages[..k]).message
  }

  /** After any series of edits, a post is marked edited exactly when it was
      marked before or one of the edits actually changed its message: the
      flag never returns to false. */
  lemma {:induction false} EditedIffChanged(row: PostRow, messages: seq<string>)
    ensures EditAll(row, messages).isEdited <==>
              row.isEdited || exists k: nat :: k < |messages| && ChangedAt(row, messages, k)
  {
    if messages != [] {
      var n := |messages| - 1;
      var init := messages[..n];
      EditedIffChanged(row, init);
      ChangedAtPrefix(row, messages);
      assert messages[..n] == init;
      assert EditAll(row, messages) == EditPost(EditAll(row, init), messages[n]);
      assert ChangedAt(row, messages, n) <==> messages[n] != "" && messages[n] != EditAll(row, init).message;
      if exists k: nat :: k < |messages| && ChangedAt(row, messages, k) {
        var k: nat :| k < |messages| && ChangedAt(row, messages, k);
        if k < n {
          assert ChangedAt(row, init, k);
        }
      }
      if exists k: nat :: k < |init| && ChangedAt(row, init, k) {
        var k: nat :| k < |init| && ChangedAt(row, init, k);
        assert ChangedAt(row, messages, k);
      }
    }
  }

  /** The edits before the last one changed what they changed in the shorter series. */
  lemma ChangedAtPrefix(row: PostRow, messages: seq<string>)
    requires messages != []
    ensures var init := messages[..|messages| - 1];
            forall k: nat :: k < |init| ==> (ChangedAt(row, messages, k) <==> ChangedAt(row, init, k))
  {
    var init := messages[..|messages| - 1];
    forall k: nat | k < |init| ensures ChangedAt(row, messages, k) <==> ChangedAt(row, init, k) {
      assert init[k] == messages[k] && init[..k] == messages[..k];
    }
  }

  /** A post that is still not marked edited carries its original message. */
  lemma {:induction false} UneditedKeepsMessage(row: PostRow, messages: seq<string>)
    requires !EditAll(row, messages).isEdited
    ensures !row.isEdited && EditAll(row, messages).message == row.message
  {
    if messages != [] {
      UneditedKeepsMessage(row, messages[..|messages| - 1]);
    }
  }

  predicate HasId(id: int, p: PostRow) { p.id == id }

  /** The post Update statement over the posts table. */
  function UpdatePost(table: seq<PostRow>, id: int, message: string): (r: Option<(seq<PostRow>, PostRow)>)
    ensures r.None? <==> forall p :: p in table ==> p.id != id
    ensures r.Some? ==> exists p :: p in table && p.id == id && r.value.1 == EditPost(p, message)
    ensures r.Some? ==> (|r.value.0| == |table| &&
              forall i :: 0 <= i < |table| ==>
                r.value.0[i] == if table[i].id == id then EditPost(table[i], message) else table[i])
  {
    var r := UpdateReturning(table, (p: PostRow) => HasId(id, p), (p: PostRow) => EditPost(p, message));
    assert r.None? ==> forall i :: 0 <= i < |table| ==> table[i].id != id;
    r
  }

  /** The post Update statement in a table with one row per id: the table is
      the UPDATE of the posts with that id, every row is a stored one or the
      edited one, and the row handed back is the edit of the one post with
      that id. */
  lemma UpdatePostEditsOne(table: seq<PostRow>, id: int, message: string)
    requires TreeShaped(table)
    requires UpdatePost(table, id, message).Some?
    ensures UpdatePost(table, id, message).value.0 ==
            UpdateWhere(table, (p: PostRow) => HasId(id, p), (p: PostRow) => EditPost(p, message))
    ensures forall p :: p in UpdatePost(table, id, message).value.0 ==> p in table || p.id == id
    ensures forall row :: row in table && row.id == id ==> UpdatePost(table, id, message).value.1 == EditPost(row, message)
  {
    var after := UpdatePost(table, id, message).value.0;
    forall p | p in after ensures p in table || p.id == id {
      var i :| 0 <= i < |after| && after[i] == p;
      assert table[i] in table;
    }
    forall row | row in table && row.id == id ensures UpdatePost(table, id, message).value.1 == EditPost(row, message) {
      var stored :| stored in table && stored.id == id && UpdatePost(table, id, message).value.1 == EditPost(stored, message);
      SameIdSameRow(table, row, stored);
    }
  }

  /** Editing posts never moves one in the reply tree. */
  lemma UpdatePostKeepsTreeShape(table: seq<PostRow>, id: int, message: string)
    requires TreeShaped(table)
    requires UpdatePost(table, id, message).Some?
    ensures TreeShaped(UpdatePost(table, id, message).value.0)
  {
    var after := UpdatePost(table, id, message).value.0;
    assert forall i :: 0 <= i < |table| ==> SamePlace(after[i], table[i]);
    SamePlacesKeepTreeShape(table, after);
  }

  // ---------------------------------------------------------------- users and threads

  /** The user Update statement's change to one row: blank fields keep the stored value. */
  function PatchUser(stored: User, given: User): (r: User)
    ensures r.nickname == stored.nickname
    ensures given.fullname != "" ==> r.fullname == given.fullname
    ensures given.fullname == "" ==> r.fullname == stored.fullname
    ensures given.about != "" ==> r.about == given.about
    ensures given.about == "" ==> r.about == stored.about
    ensures given.email != "" ==> r.email == given.email
    ensures given.email == "" ==> r.email == stored.email
  {
    stored.(fullname := Coalesce(given.fullname, stored.fullname),
            about := Coalesce(given.about, stored.about),
            email := Coalesce(given.email, stored.email))
  }

  /** Patching twice with the same fields is patching once; an all-blank patch changes nothing. */
  lemma PatchUserIdempotent(stored: User, given: User)
    ensures PatchUser(PatchUser(stored, given), given) == PatchUser(stored, given)
    ensures given.fullname == "" && given.about == "" && given.email == "" ==> PatchUser(stored, given) == stored
  {
  }

  /** `UPDATE users ... WHERE nickname = $4 RETURNING ...` */
  function UpdateUser(users: seq<User>, given: User): (r: Option<(seq<User>, User)>)
    ensures r.None? <==> forall u :: u in users ==> u.nickname != given.nickname
    ensures r.Some? ==> exists u :: u in users && u.nickname == given.nickname && r.value.1 == PatchUser(u, given)
    ensures r.Some? ==> (|r.value.0| == |users| &&
              forall i :: 0 <= i < |users| ==>
                r.value.0[i] == if users[i].nickname == given.nickname then PatchUser(users[i], given) else users[i])
  {
    var r := UpdateReturning(users, (u: User) => u.nickname == given.nickname, (u: User) => PatchUser(u, given));
    assert r.None? ==> forall i :: 0 <= i < |users| ==> users[i].nickname != given.nickname;
    r
  }

  /** The thread Update statements' change to one row. */
  function PatchThread(stored: Thread, title: string, message: string): (r: Thread)
    ensures r == stored.(title := r.title, message := r.message)
    ensures title != "" ==> r.title == title
    ensures title == "" ==> r.title == stored.title
    ensures message != "" ==> r.message == message
    ensures message == "" ==> r.message == stored.message
  {
    stored.(title := Coalesce(title, stored.title), message := Coalesce(message, stored.message))
  }

  /** How an Update statement finds its thread: by id, or by slug (a thread
      without a slug matches no slug). */
  datatype ThreadKey = ById(id: int) | BySlug(slug: string)

  predicate KeyMatches(key: ThreadKey, t: Thread)
  {
    match key
    case ById(id) => t.id == id
    case BySlug(slug) => slug != "" && t.slug == slug
  }

  /** `UPDATE threads ... WHERE id = $3` or `... WHERE slug = $3`, with RETURNING. */
  function UpdateThread(threads: seq<Thread>, key: ThreadKey, title: string, message: string): (r: Option<(seq<Thread>, Thread)>)
    ensures r.None? <==> forall t :: t in threads ==> !KeyMatches(key, t)
    ensures r.Some? ==> exists t :: t in threads && KeyMatches(key, t) && r.value.1 == PatchThread(t, title, message)
    ensures r.Some? ==> (|r.value.0| == |threads| &&
              forall i :: 0 <= i < |threads| ==>
                r.value.0[i] == if KeyMatches(key, threads[i]) then PatchThread(threads[i], title, message) else threads[i])
  {
    var r := UpdateReturning(threads, (t: Thread) => KeyMatches(key, t), (t: Thread) => PatchThread(t, title, message));
    assert r.None? ==> forall i :: 0 <= i < |threads| ==> !KeyMatches(key, threads[i]);
    r
  }

  // ---------------------------------------------------------------- votes

  /** The conflict target `(nickname, thread)`. */
  predicate SameVoter(a: Vote, b: Vote)
  {
    a.nickname == b.nickname && a.thread == b.thread
  }

  /** The unique constraint behind `ON CONFLICT (nickname, thread)`. */
  predicate UniqueVoters(votes: seq<Vote>)
  {
    forall i, j :: 0 <= i < |votes| && 0 <= j < |votes| && SameVoter(votes[i], votes[j]) ==> i == j
  }

  /** `INSERT INTO votes ... ON CONFLICT (nickname, thread) DO UPDATE SET value = $3` */
  function Upsert(votes: seq<Vote>, v: Vote): (r: seq<Vote>)
  {
    if exists w :: w in votes && SameVoter(w, v) then
      UpdateWhere(votes, (w: Vote) => SameVoter(w, v), (w: Vote) => w.(voice := v.voice))
    else
      votes + [v]
  }

  /** The voice of `nickname` in `thread`, if they voted. */
  function VoteOf(votes: seq<Vote>, nickname: string, thread: int): (r: Option<int>)
    ensures r.None? <==> forall w :: w in votes ==> !(w.nickname == nickname && w.thread == thread)
    ensures r.Some? ==> Vote(nickname, thread, r.value) in votes
  {
    if votes == [] then None
    else if votes[0].nickname == nickname && votes[0].thread == thread then Some(votes[0].voice)
    else VoteOf(votes[1..], nickname, thread)
  }

  /** Upserting keeps at most one vote per (nickname, thread). */
  lemma UpsertKeepsUniqueVoters(votes: seq<Vote>, v: Vote)
    requires UniqueVoters(votes)
    ensures UniqueVoters(Upsert(votes, v))
  {
    var r := Upsert(votes, v);
    if exists w :: w in votes && SameVoter(w, v) {
      assert forall i :: 0 <= i < |votes| ==> SameVoter(r[i], votes[i]);
    } else {
      assert r[|votes|] == v;
      forall k | 0 <= k < |votes| ensures r[k] == votes[k] && !SameVoter(r[k], v) {
        assert votes[k] in votes;
      }
    }
  }

  lemma VoteOfUnique(votes: seq<Vote>, w: Vote)
    requires UniqueVoters(votes) && w in votes
    ensures VoteOf(votes, w.nickname, w.thread) == Some(w.voice)
  {
    var r := VoteOf(votes, w.nickname, w.thread);
    var i :| 0 <= i < |votes| && votes[i] == w;
    var j :| 0 <= j < |votes| && votes[j] == Vote(w.nickname, w.thread, r.value);
    assert SameVoter(votes[i], votes[j]);
  }

  /** After an upsert the voter's voice is the new one and every other
      voter's voice is what it was. */
  lemma UpsertOverwrites(votes: seq<Vote>, v: Vote, nickname: string, thread: int)
    requires UniqueVoters(votes)
    ensures VoteOf(Upsert(votes, v), nickname, thread) ==
              if nickname == v.nickname && thread == v.thread then Some(v.voice) else VoteOf(votes, nickname, thread)
  {
    var r := Upsert(votes, v);
    UpsertKeepsUniqueVoters(votes, v);
    var key := Vote(nickname, thread, 0);
    var found := exists w :: w in votes && SameVoter(w, v);
    if found {
      assert forall i :: 0 <= i < |votes| ==> SameVoter(r[i], votes[i]);
    }
    if nickname == v.nickname && thread == v.thread {
      if found {
        var w :| w in votes && SameVoter(w, v);
        var i :| 0 <= i < |votes| && votes[i] == w;
        assert r[i] == v;
        VoteOfUnique(r, r[i]);
      } else {
        assert r[|votes|] == v;
        VoteOfUnique(r, v);
      }
    } else {
      match VoteOf(votes, nickname, thread)
      case Some(voice) =>
        var i :| 0 <= i < |votes| && votes[i] == Vote(nickname, thread, voice);
        assert r[i] == votes[i];
        VoteOfUnique(r, r[i]);
      case None =>
        forall w | w in r ensures !(w.nickname == nickname && w.thread == thread) {
          var i :| 0 <= i < |r| && r[i] == w;
          if i < |votes| {
            assert votes[i] in votes;
          }
        }
    }
  }

  /** `VoteBySlug`: the thread id comes from `(SELECT id FROM threads WHERE
      slug = $2)`; with no such thread it is NULL and the insert fails on the
      NOT NULL key column. */
  function VoteBySlug(votes: seq<Vote>, threads: seq<Thread>, nickname: string, slug: string, voice: int): (r: Answer<seq<Vote>>)
    ensures r.err.None? <==> exists t :: t in threads && KeyMatches(BySlug(slug), t)
    ensures r.err.Some? ==> r.err == Some(PgError(NotNullViolation)) && r.value.None?
    ensures r.err.None? ==> exists t :: t in threads && KeyMatches(BySlug(slug), t) &&
                               r.value == Some(Upsert(votes, Vote(nickname, t.id, voice)))
  {
    match FirstMatch(threads, (t: Thread) => KeyMatches(BySlug(slug), t))
    case None => Answer(None, Some(PgError(NotNullViolation)))
    case Some(k) => Answer(Some(Upsert(votes, Vote(nickname, threads[k].id, voice))), None)
  }
}
