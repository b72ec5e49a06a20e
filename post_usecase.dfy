/**
 * The post use case (app/usecases/post.go): reading a post together with the
 * relations a caller names ("user", "thread", "forum"), and editing a post's
 * message.  The user and thread use cases it consults (usecases/user.go and
 * usecases/thread.go) are not part of this model: their Get operations are
 * the parameters `userOf` and `threadOf`.  The forum is looked up with
 * ForumUseCase.Get.
 */
module PostUseCase {
  import opened Wrappers
  import opened Models
  import opened PostStore
  import opened Updates
  import opened Driver
  import opened Decimal
  import ForumStore
  import ForumUseCase
  import Sorting

  /** The relation names a caller may ask for. */
  const PostUser: string := "user"
  const PostForum: string := "forum"
  const PostThread: string := "thread"

  /** The post Get statement: the rows with that id. */
  function SelectPost(rows: seq<PostRow>, id: int): (r: Outcome<PostRow>)
    ensures r.Rows? && (forall p :: p in r.rows ==> p in rows && p.id == id)
    ensures |r.rows| > 0 <==> exists p :: p in rows && p.id == id
  {
    var found := Sorting.Filter(rows, (p: PostRow) => p.id == id);
    assert (exists p :: p in rows && p.id == id) ==> exists p :: p in found;
    Rows(found)
  }

  // ---------------------------------------------------------------- Get

  /** The error the lookup for one relation name ends with: the user by the
      post's author, the thread by the decimal text of the post's thread id,
      the forum by the post's forum slug; an unknown name is BadRequest. */
  function NameError(name: string, post: Post, db: ForumStore.ForumDb,
                     userOf: string -> Answer<User>, threadOf: string -> Answer<Thread>): Option<Error>
  {
    if name == PostUser then userOf(post.author).err
    else if name == PostThread then threadOf(Itoa(post.thread)).err
    else if name == PostForum then ForumUseCase.Get(db, post.forum).err
    else Some(BadRequest)
  }

  /** The error of the first name whose lookup fails, if any. */
  function FirstError(names: seq<string>, post: Post, db: ForumStore.ForumDb,
                      userOf: string -> Answer<User>, threadOf: string -> Answer<Thread>): Option<Error>
  {
    if names == [] then None
    else
      var earlier := FirstError(names[..|names| - 1], post, db, userOf, threadOf);
      if earlier.Some? then earlier else NameError(names[|names| - 1], post, db, userOf, threadOf)
  }

  /** The detailed post when every lookup succeeds: each relation named
      (once or more) is filled with what its lookup gives, the others stay
      empty. */
  function Detailed(names: seq<string>, post: Post, db: ForumStore.ForumDb,
                    userOf: string -> Answer<User>, threadOf: string -> Answer<Thread>): ParamsPost
  {
    ParamsPost(
      Some(post),
      if PostUser in names then userOf(post.author).value else None,
      if PostThread in names then threadOf(Itoa(post.thread)).value else None,
      if PostForum in names then ForumUseCase.Get(db, post.forum).value else None)
  }

  /** FirstError names the first failing lookup: none fails exactly when it
      is None, and otherwise it is the error of a name all of whose
      predecessors succeed. */
  lemma {:induction false} FirstErrorIsFirst(names: seq<string>, post: Post, db: ForumStore.ForumDb,
                                             userOf: string -> Answer<User>, threadOf: string -> Answer<Thread>)
    ensures FirstError(names, post, db, userOf, threadOf).None? <==>
              forall i :: 0 <= i < |names| ==> NameError(names[i], post, db, userOf, threadOf).None?
    ensures FirstError(names, post, db, userOf, threadOf).Some? ==>
              exists k :: 0 <= k < |names| && FirstError(names, post, db, userOf, threadOf) == NameError(names[k], post, db, userOf, threadOf) &&
                forall i :: 0 <= i < k ==> NameError(names[i], post, db, userOf, threadOf).None?
    decreases |names|
  {
    if names != [] {
      var init := names[..|names| - 1];
      FirstErrorIsFirst(init, post, db, userOf, threadOf);
      assert forall i :: 0 <= i < |init| ==> init[i] == names[i];
      if FirstError(init, post, db, userOf, threadOf).Some? {
        var k :| 0 <= k < |init| && FirstError(init, post, db, userOf, threadOf) == NameError(init[k], post, db, userOf, threadOf) &&
                 forall i :: 0 <= i < k ==> NameError(init[i], post, db, userOf, threadOf).None?;
        assert FirstError(names, post, db, userOf, threadOf) == NameError(names[k], post, db, userOf, threadOf);
      }
    }
  }

  /** Once a lookup has failed, the names after it change nothing. */
  lemma {:induction false} FirstErrorSticks(names: seq<string>, k: nat, post: Post, db: ForumStore.ForumDb,
                                            userOf: string -> Answer<User>, threadOf: string -> Answer<Thread>)
    requires k <= |names| && FirstError(names[..k], post, db, userOf, threadOf).Some?
    ensures FirstError(names, post, db, userOf, threadOf) == FirstError(names[..k], post, db, userOf, threadOf)
    decreases |names|
  {
    if k < |names| {
      var init := names[..|names| - 1];
      assert init[..k] == names[..k];
      FirstErrorSticks(init, k, post, db, userOf, threadOf);
    } else {
      assert names[..k] == names;
    }
  }

  /** One more name: its lookup counts only when the earlier ones all succeeded. */
  lemma FirstErrorSnoc(names: seq<string>, name: string, post: Post, db: ForumStore.ForumDb,
                       userOf: string -> Answer<User>, threadOf: string -> Answer<Thread>)
    ensures FirstError(names + [name], post, db, userOf, threadOf) ==
            if FirstError(names, post, db, userOf, threadOf).Some? then FirstError(names, post, db, userOf, threadOf)
            else NameError(name, post, db, userOf, threadOf)
  {
    assert (names + [name])[..|names|] == names;
  }

  /** One more name fills the relation it names and leaves the others. */
  lemma DetailedSnoc(names: seq<string>, name: string, post: Post, db: ForumStore.ForumDb,
                     userOf: string -> Answer<User>, threadOf: string -> Answer<Thread>)
    ensures var before := Detailed(names, post, db, userOf, threadOf);
            Detailed(names + [name], post, db, userOf, threadOf) ==
              if name == PostUser then before.(author := userOf(post.author).value)
              else if name == PostThread then before.(thread := threadOf(Itoa(post.thread)).value)
              else if name == PostForum then before.(forum := ForumUseCase.Get(db, post.forum).value)
              else before
  {
    assert forall x :: x in names + [name] <==> x in names || x == name;
  }

  /** Get: read the post (a missing one is PostNotFound, with the empty post
      and no relation looked up), then look up the named relations in order.
      The first lookup that fails, or the first unknown name, ends the call
      with no result and that error; otherwise every named relation is
      filled. */
  method Get(posts: PostTable, db: ForumStore.ForumDb, userOf: string -> Answer<User>, threadOf: string -> Answer<Thread>,
             id: int, details: seq<string>)
    returns (detailed: Option<ParamsPost>, err: Option<Error>)
    requires posts.Valid()
    ensures (forall p :: p in posts.rows ==> p.id != id) ==>
              detailed == Some(ParamsPost(Some(ZeroPost), None, None, None)) && err == Some(PostNotFound)
    ensures forall row :: row in posts.rows && row.id == id ==>
              && err == FirstError(details, ScanPost(row), db, userOf, threadOf)
              && (err.None? ==> detailed == Some(Detailed(details, ScanPost(row), db, userOf, threadOf)))
              && (err.Some? ==> detailed.None?)
  {
    var read := ForumUseCase.TranslateRead(ScanRow(SelectPost(posts.rows, id), ScanPost, ZeroPost), PostNotFound);
    if read.err.Some? {
      return Some(ParamsPost(read.value, None, None, None)), read.err;
    }
    var row := SelectPost(posts.rows, id).rows[0];
    forall other | other in posts.rows && other.id == id ensures other == row {
      SameIdSameRow(posts.rows, other, row);
    }
    detailed, err := LookUp(read.value.value, db, userOf, threadOf, details);
  }

  /** The lookups of Get, in the order the names come: the first one that
      fails, or the first unknown name, ends the call with no result; with
      none failing, every named relation is filled. */
  method LookUp(post: Post, db: ForumStore.ForumDb, userOf: string -> Answer<User>, threadOf: string -> Answer<Thread>,
                details: seq<string>)
    returns (detailed: Option<ParamsPost>, err: Option<Error>)
    ensures err == FirstError(details, post, db, userOf, threadOf)
    ensures err.None? ==> detailed == Some(Detailed(details, post, db, userOf, threadOf))
    ensures err.Some? ==> detailed.None?
  {
    var result := ParamsPost(Some(post), None, None, None);
    var i := 0;
    while i < |details|
      invariant 0 <= i <= |details|
      invariant FirstError(details[..i], post, db, userOf, threadOf).None?
      invariant result == Detailed(details[..i], post, db, userOf, threadOf)
    {
      var name := details[i];
      assert details[..i + 1] == details[..i] + [name];
      FirstErrorSnoc(details[..i], name, post, db, userOf, threadOf);
      DetailedSnoc(details[..i], name, post, db, userOf, threadOf);
      var failed: Option<Error> := None;
      if name == PostUser {
        var found := userOf(post.author);
        result := result.(author := found.value);
        failed := found.err;
      } else if name == PostThread {
        var found := threadOf(Itoa(post.thread));
        result := result.(thread := found.value);
        failed := found.err;
      } else if name == PostForum {
        var found := ForumUseCase.Get(db, post.forum);
        result := result.(forum := found.value);
        failed := found.err;
      } else {
        failed := Some(BadRequest);
      }
      if failed.Some? {
        FirstErrorSticks(details, i + 1, post, db, userOf, threadOf);
        return None, failed;
      }
      i := i + 1;
    }
    assert details[..i] == details;
    return Some(result), None;
  }

  /** The thread relation is looked up by a text that names the post's
      thread id and no other. */
  lemma ThreadLookupKey(post: Post, other: int)
    ensures Atoi(Itoa(post.thread)) == Some(post.thread)
    ensures Itoa(other) == Itoa(post.thread) ==> other == post.thread
  {
    AtoiItoa(post.thread);
    if Itoa(other) == Itoa(post.thread) {
      ItoaInjective(other, post.thread);
    }
  }

  // ---------------------------------------------------------------- Update

  /** Update: edit the message of the post with that id (a blank message
      keeps the stored one; isEdited as the post Update statement decides)
      and answer the edited post; a missing post is PostNotFound with the
      empty post and no change to the table. */
  method Update(posts: PostTable, post: Post) returns (updated: Option<Post>, err: Option<Error>)
    requires posts.Valid()
    modifies posts
    ensures posts.Valid() && posts.nextId == old(posts.nextId)
    ensures (forall p :: p in old(posts.rows) ==> p.id != post.id) ==>
              posts.rows == old(posts.rows) && updated == Some(ZeroPost) && err == Some(PostNotFound)
    ensures forall row :: row in old(posts.rows) && row.id == post.id ==>
              && posts.rows == UpdateWhere(old(posts.rows), (p: PostRow) => HasId(post.id, p), (p: PostRow) => EditPost(p, post.message))
              && updated == Some(ScanPost(EditPost(row, post.message))) && err.None?
  {
    var edit := UpdatePost(posts.rows, post.id, post.message);
    var outcome: Outcome<PostRow> := Rows([]);
    if edit.Some? {
      UpdatePostKeepsTreeShape(posts.rows, post.id, post.message);
      UpdatePostEditsOne(posts.rows, post.id, post.message);
      posts.rows := edit.value.0;
      outcome := Rows([edit.value.1]);
    }
    var answer := ForumUseCase.TranslateRead(ScanRow(outcome, ScanPost, ZeroPost), PostNotFound);
    updated, err := answer.value, answer.err;
  }
}
