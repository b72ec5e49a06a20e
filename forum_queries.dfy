/**
 * The listings of a forum: its threads ordered by creation time and the users
 * who took part in it ordered by nickname, each ascending or descending, from
 * the start or beyond a `since` value.  The query is the base statement
 * filtered to the forum's slug followed by one ORDER BY ... LIMIT suffix.
 *
 * Each query is a function over in-memory tables; LIMIT is a natural number
 * here, and a negative one is the store's error, raised where the statement
 * is run (module ForumRepository).
 */
module ForumQueries {
  import opened Wrappers
  import opened Models
  import opened Paths
  import opened Sorting
  import opened KeyOrders

  // ----- threads: WHERE forum = $1 ... ORDER BY created -----

  function CreatedKey(t: Thread): seq<int> { [t.created] }

  /** `forum = $1` and, with a since, `created <= $2` (descending) or
      `created >= $2` (ascending): both bounds take the since itself. */
  predicate InThreadWindow(t: Thread, forum: string, since: Option<Time>, desc: bool)
  {
    && t.forum == forum
    && (since.Some? ==> if desc then t.created <= since.value else t.created >= since.value)
  }

  function ThreadCandidates(threads: seq<Thread>, forum: string, since: Option<Time>, desc: bool): seq<Thread>
  {
    Filter(threads, (t: Thread) => InThreadWindow(t, forum, since, desc))
  }

  /** The forum's threads within the since bound, by creation time, at most
      `limit` of them and none skipped that should have come first. */
  function ForumThreads(threads: seq<Thread>, forum: string, since: Option<Time>, desc: bool, limit: nat): (r: seq<Thread>)
    ensures IsPage(ThreadCandidates(threads, forum, since, desc), ByKey(CreatedKey, desc), limit, r)
  {
    ByKeyIsStrictWeak(CreatedKey, desc);
    Page(ThreadCandidates(threads, forum, since, desc), ByKey(CreatedKey, desc), limit)
  }

  /** The thread listing in the forum's own terms: threads of that forum
      within the bound, in creation order, at most `limit`, every matching
      thread when fewer than `limit` come back, and no matching thread left out
      that was created ahead of a returned one. */
  lemma ForumThreadsFacts(threads: seq<Thread>, forum: string, since: Option<Time>, desc: bool, limit: nat)
    ensures var r := ForumThreads(threads, forum, since, desc, limit);
            && |r| <= limit
            && (forall t :: t in r ==> t in threads && InThreadWindow(t, forum, since, desc))
            && (|r| < limit ==> forall t :: t in threads && InThreadWindow(t, forum, since, desc) ==> t in r)
            && (forall i, j :: 0 <= i < j < |r| ==>
                  if desc then r[i].created >= r[j].created else r[i].created <= r[j].created)
            && (forall q, p :: q in threads && InThreadWindow(q, forum, since, desc) && q !in r && p in r ==>
                  if desc then q.created <= p.created else q.created >= p.created)
  {
    var cands := ThreadCandidates(threads, forum, since, desc);
    var r := ForumThreads(threads, forum, since, desc, limit);
    assert forall t :: t in cands <==> t in threads && InThreadWindow(t, forum, since, desc);
    ThreadPageOrder(cands, desc, limit, r);
    if |r| < limit {
      ShortPageHasAll(cands, ByKey(CreatedKey, desc), limit, r);
    }
  }

  /** A page of threads by creation time: its threads are candidates, their
      times never go backwards, and no candidate left out was created ahead
      of a kept one. */
  lemma ThreadPageOrder(cands: seq<Thread>, desc: bool, limit: nat, r: seq<Thread>)
    requires IsPage(cands, ByKey(CreatedKey, desc), limit, r)
    ensures |r| <= limit && forall t :: t in r ==> t in cands
    ensures forall i, j :: 0 <= i < j < |r| ==>
              if desc then r[i].created >= r[j].created else r[i].created <= r[j].created
    ensures forall q, p :: q in cands && q !in r && p in r ==>
              if desc then q.created <= p.created else q.created >= p.created
  {
    KeyPageFacts(cands, CreatedKey, desc, limit, r);
    forall i, j | 0 <= i < j < |r|
      ensures if desc then r[i].created >= r[j].created else r[i].created <= r[j].created
    {
      SingletonPathLess(r[i].created, r[j].created);
      SingletonPathLess(r[j].created, r[i].created);
    }
    forall q, p | q in cands && q !in r && p in r
      ensures if desc then q.created <= p.created else q.created >= p.created
    {
      SingletonPathLess(q.created, p.created);
      SingletonPathLess(p.created, q.created);
    }
  }

  // ----- users: forum_users JOIN users ... ORDER BY u.nickname -----

  /** A row of forum_users: a user who took part in the forum. */
  datatype Member = Member(forum: string, nickname: string)

  function NicknameKey(u: User): seq<int> { CodePoints(u.nickname) }

  /** Nicknames compare code point by code point. */
  predicate NicknameLess(a: string, b: string)
  {
    PathLess(CodePoints(a), CodePoints(b))
  }

  /** `fu.forum = $1` joined with users on the nickname: for every
      forum_users row of the forum, in table order, the users it names. */
  function MembersOf(members: seq<Member>, users: seq<User>, forum: string): (r: seq<User>)
    ensures forall u :: u in r <==> u in users && Member(forum, u.nickname) in members
  {
    if members == [] then []
    else
      var here := if members[0].forum == forum then Filter(users, (u: User) => u.nickname == members[0].nickname) else [];
      assert forall m :: m in members <==> m == members[0] || m in members[1..];
      here + MembersOf(members[1..], users, forum)
  }

  /** With a since: `u.nickname < $2` (descending) or `u.nickname > $2`
      (ascending): both bounds leave the since itself out. */
  predicate InUserWindow(u: User, since: Option<string>, desc: bool)
  {
    since.Some? ==> if desc then NicknameLess(u.nickname, since.value) else NicknameLess(since.value, u.nickname)
  }

  function UserCandidates(members: seq<Member>, users: seq<User>, forum: string, since: Option<string>, desc: bool): seq<User>
  {
    Filter(MembersOf(members, users, forum), (u: User) => InUserWindow(u, since, desc))
  }

  /** The forum's users beyond the since nickname, by nickname, at most
      `limit` of them and none skipped that should have come first. */
  function ForumUsers(members: seq<Member>, users: seq<User>, forum: string, since: Option<string>, desc: bool, limit: nat): (r: seq<User>)
    ensures IsPage(UserCandidates(members, users, forum, since, desc), ByKey(NicknameKey, desc), limit, r)
  {
    ByKeyIsStrictWeak(NicknameKey, desc);
    Page(UserCandidates(members, users, forum, since, desc), ByKey(NicknameKey, desc), limit)
  }

  /** The user listing in the forum's own terms: users who took part in the
      forum, beyond the since nickname, in nickname order, at most `limit`,
      all of them when fewer than `limit` come back, and no user left out
      whose nickname comes ahead of a returned one. */
  lemma ForumUsersFacts(members: seq<Member>, users: seq<User>, forum: string, since: Option<string>, desc: bool, limit: nat)
    ensures var r := ForumUsers(members, users, forum, since, desc, limit);
            && |r| <= limit
            && (forall u :: u in r ==> u in users && Member(forum, u.nickname) in members && InUserWindow(u, since, desc))
            && (|r| < limit ==> forall u :: u in users && Member(forum, u.nickname) in members && InUserWindow(u, since, desc) ==> u in r)
            && (forall i, j :: 0 <= i < j < |r| ==>
                  if desc then !NicknameLess(r[i].nickname, r[j].nickname) else !NicknameLess(r[j].nickname, r[i].nickname))
            && (forall q, p :: q in users && Member(forum, q.nickname) in members && InUserWindow(q, since, desc) && q !in r && p in r ==>
                  if desc then !NicknameLess(p.nickname, q.nickname) else !NicknameLess(q.nickname, p.nickname))
  {
    var cands := UserCandidates(members, users, forum, since, desc);
    var r := ForumUsers(members, users, forum, since, desc, limit);
    UserCandidatesAre(members, users, forum, since, desc);
    UserPageOrder(cands, desc, limit, r);
    if |r| < limit {
      ShortPageHasAll(cands, ByKey(NicknameKey, desc), limit, r);
    }
  }

  /** A page of users by nickname: its users are candidates, their nicknames
      never go backwards, and no candidate left out comes ahead of a kept one. */
  lemma UserPageOrder(cands: seq<User>, desc: bool, limit: nat, r: seq<User>)
    requires IsPage(cands, ByKey(NicknameKey, desc), limit, r)
    ensures |r| <= limit && forall u :: u in r ==> u in cands
    ensures forall i, j :: 0 <= i < j < |r| ==>
              if desc then !NicknameLess(r[i].nickname, r[j].nickname) else !NicknameLess(r[j].nickname, r[i].nickname)
    ensures forall q, p :: q in cands && q !in r && p in r ==>
              if desc then !NicknameLess(p.nickname, q.nickname) else !NicknameLess(q.nickname, p.nickname)
  {
    KeyPageFacts(cands, NicknameKey, desc, limit, r);
  }

  /** The user candidates are exactly the forum's members inside the window. */
  lemma UserCandidatesAre(members: seq<Member>, users: seq<User>, forum: string, since: Option<string>, desc: bool)
    ensures forall u :: u in UserCandidates(members, users, forum, since, desc) <==>
              u in users && Member(forum, u.nickname) in members && InUserWindow(u, since, desc)
  {
  }

  /** Distinct nicknames are ordered one way or the other, so with unique
      nicknames a user page is strictly ordered. */
  lemma NicknameLessTotal(a: string, b: string)
    requires a != b
    ensures NicknameLess(a, b) || NicknameLess(b, a)
  {
    if |a| == |b| {
      var i :| 0 <= i < |a| && a[i] != b[i];
      assert CodePoints(a)[i] != CodePoints(b)[i];
    }
    PathLessTotal(CodePoints(a), CodePoints(b));
  }
}
