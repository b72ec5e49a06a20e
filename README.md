# Forum back end: threaded posts, listings and conflict-aware creation

A Dafny model of the core of a forum back end written in Go on PostgreSQL
(pgx v4). Users write posts inside the threads of a forum, and replies form
trees. The model covers four parts:

- **Post listings.** There are twelve listing statements: flat, tree and
  parent-tree order, ascending or descending, with or without a `since`
  cursor. Each is a filter / sort / limit function over an in-memory posts
  table. Every row carries its materialised `path`. `path[1]` in Postgres is
  `path[0]` here, and arrays compare lexicographically with a proper prefix
  first.
- **The thread repository.**
  - Picking the listing statement.
  - Building the multi-row `INSERT` text with its placeholders and values.
  - The all-or-nothing batch insert inside a transaction.
  - The rows it reads back.
- **The forum repository and forum use case.**
  - Creating forums and threads, turning SQLSTATE 23502 and 23505 into
    "not found" and "already exists" (the latter with a follow-up read).
  - The thread and user listings of a forum, with their cursor bounds.
  - The existence check after an empty listing.
- **The post use case.**
  - Composing a post with its author, thread and forum, in the order the
    caller names them.
  - Editing a post's message.

Store model:

- The posts table is a class, `PostStore.PostTable`, because the batch insert
  changes it row by row and rolls it back. Its invariant `TreeShaped` says:
  ids are unique, a root's path is `[id]`, and a reply's path is its parent's
  path plus its own id, in the same thread.
- The forum-side tables are a value, `ForumStore.ForumDb` (users, forums,
  threads, forum_users, id sequences). The statements take it and return it.
  Its invariant `Consistent` says:
  - forum slugs are unique;
  - non-empty thread slugs are unique;
  - threads and forum_users rows name existing forums.
- The two stores are separate values. No operation of the core spans both,
  except the post use case, which reads both.

The database driver is modelled in `Driver`:

- A statement is `Refused` when it does not prepare: `Query` returns the
  error.
- It is `Failed` when it fails while running: only `rows.Err()` reports it.
- Otherwise it yields `Rows`.
- A `QueryRow(...).Scan` into a freshly allocated struct gives either the
  first row, or the zero struct with the error (`ErrNoRows` when no row came
  back).
- The positions of rows that `rows.Scan` cannot read are a parameter
  (`faults`).
- `time.Now()` is the parameter `created`.

Behaviour of the code that is easy to miss:

- **Forum create returns the forum without its id.** `RETURNING` has no `id`
  column, so the forum handed back has id 0. A second create of the same slug
  answers the stored row with its real id. The two answers are therefore not
  identical; `ForumUseCase.CreateTwice` states both.
- **Some errors pass through untranslated.** An error from the repository that
  is not a `*pgconn.PgError` (a connection error, say) is returned unchanged
  by `Create` and `CreateThread`. It is not turned into an internal error
  (`ForumUseCase.TranslateCreate`).
- **Some error paths return partial values:**
  - A failed post read in the post use case returns a non-nil result holding
    the empty post.
  - `CreatePosts` hands back a nil slice on a scan fault, but the rows stay
    inserted.
  - An empty listing of a missing forum returns an empty slice together with
    `NotFoundForum`.
- **`CreatePosts` with no posts fails.** The statement text is `... VALUES
  RETURNING ...`, a syntax error (42601). `CreatePostsBatch` with no posts
  succeeds with an empty slice.

## Model

| member | source | states |
|---|---|---|
| Models.ScanPost | utils/constants/constants.go:19 | The columns every post query selects: the id, thread and message are kept, and `COALESCE(parent, 0)` gives parent 0 exactly for a root post. |
| Paths.PathLessIrreflexive | utils/constants/constants.go:22 | No path is before itself in Postgres array order. |
| Paths.PathLessTransitive | utils/constants/constants.go:22 | Array order is transitive. |
| Paths.PathLessTotal | utils/constants/constants.go:22 | Two different paths are ordered one way or the other. |
| Paths.PrefixPathLess | utils/constants/constants.go:40 | A proper prefix sorts before the longer path, so a post sorts before its replies. |
| Paths.SameHeadPathLess | utils/constants/constants.go:34 | Paths with the same first element compare by the rest (`path[2:]`). |
| Paths.HeadsDecidePathLess | utils/constants/constants.go:34 | Paths with different first elements compare by those elements (`path[1]`). |
| Sorting.Sort | utils/constants/constants.go:20 | ORDER BY: the result is a permutation of the input, sorted by the strict weak order. |
| Sorting.Page | utils/constants/constants.go:20 | ORDER BY ... LIMIT: at most `limit` rows, drawn from the candidates, sorted, and no left-out candidate comes strictly before a returned one. |
| Sorting.ShortPageHasAll | utils/constants/constants.go:20 | A page shorter than the limit holds every candidate. |
| Sorting.Filter | utils/constants/constants.go:20 | WHERE: exactly the rows that satisfy the predicate, with their multiplicities. |
| KeyOrders.ByKeyIsStrictWeak | utils/constants/constants.go:22 | Ordering rows by an array key, ascending or descending, is a strict weak order. |
| KeyOrders.KeyPageFacts | utils/constants/constants.go:22 | A keyed page is drawn from the candidates, its keys run in order, and no left-out candidate's key comes ahead of a kept one. |
| KeyOrders.CodePointsInjective | utils/constants/constants.go:100 | Nicknames compared as code-point arrays: different nicknames give different keys. |
| PostQueries.FlatPosts | utils/constants/constants.go:19-20 | The four flat queries (also lines 37-38, 56-57, 72-73). Posts of the thread with id below the cursor (desc) or above it (asc), by id, at most `limit`. None is left out that comes before a returned one. |
| PostQueries.FlatPageFacts | utils/constants/constants.go:37-38 | A flat page holds only posts of the thread inside the cursor window, in id order, and skips none that should come first. |
| PostQueries.CursorPath | utils/constants/constants.go:22 | `(SELECT path FROM posts WHERE id = $2)`: the cursor post's path, or none when that post is missing. |
| PostQueries.TreePosts | utils/constants/constants.go:21-22 | The four tree queries (also 39-41, 58-59, 74-75). Posts of the thread with path strictly before (desc) or after (asc) the cursor post's path, in path order, at most `limit`. A missing cursor post gives nothing. |
| PostQueries.TreePageFacts | utils/constants/constants.go:39-41 | A tree page holds only posts of the thread inside the path window, in path order. |
| PostQueries.CursorRoot | utils/constants/constants.go:29 | `(SELECT path[1] FROM posts WHERE id = $2)`: the root id of the cursor post. |
| PostQueries.RootCandidates | utils/constants/constants.go:24-29 | The root ids eligible for a parent-tree page: root posts of the thread strictly beyond the cursor root, or any post of the thread without a cursor. |
| PostQueries.DistinctOrdered | utils/constants/constants.go:25 | SELECT DISTINCT ... ORDER BY: the same ids, each once, strictly ordered. |
| PostQueries.SelectRoots | utils/constants/constants.go:30-31 | The first `limit` distinct candidate root ids in order, skipping none that should come first. |
| PostQueries.ParentTreeRoots | utils/constants/constants.go:23-32 | The roots CTE: at most `limit` distinct root ids, strictly ordered. With a cursor they are root posts strictly beyond the cursor's root. A missing cursor post gives none. |
| PostQueries.ParentTreeOrderIsStrictWeak | utils/constants/constants.go:34 | Both parent-tree orders are strict weak orders. |
| PostQueries.ParentTreeDescOrder | utils/constants/constants.go:34 | `ORDER BY path[1] DESC, path[2:]`: roots descending, and inside one root by the rest of the path ascending. |
| PostQueries.ParentTreePosts | utils/constants/constants.go:33-34 | The parent-tree listing (also 52-53, 68-69, 83-86): exactly the thread's posts whose root was selected, with their multiplicities, in parent-tree order. |
| PostQueries.ParentTreeNeverSplits | utils/constants/constants.go:34 | A root tree is never split: one post of a tree in the listing brings every post of that tree. |
| PostQueries.ParentTreeRootCount | utils/constants/constants.go:31 | LIMIT bounds the number of distinct root ids in the listing, not the number of posts. |
| PostQueries.ListPosts | utils/constants/constants.go:17-88 | All twelve queries return only posts of the thread. Flat and tree listings hold at most `limit` posts. |
| PostStore.RootOf | utils/constants/constants.go:28-29 | In a tree-shaped table every path ends with the post's id and starts with the id of a root post of the same thread. |
| PostStore.ShortPathIsRoot | utils/constants/constants.go:28 | A post whose path has one element has no parent. |
| PostStore.DistinctPaths | utils/constants/constants.go:22 | Different posts have different paths, so path order is strict. |
| PostStore.RootCandidatesAreRootPosts | utils/constants/constants.go:61-66 | Without a cursor the root ids drawn from all posts of the thread are exactly the ids of its root posts. |
| PostStore.RootSortsFirst | utils/constants/constants.go:86 | In parent-tree order a root comes before every reply under it. |
| PostStore.RootPrecedesReplies | utils/constants/constants.go:34 | In every parent-tree listing, ascending or descending, a root precedes its replies. |
| PostStore.NewRow | utils/constants/constants.go:126 | One inserted post: the next id, `NULLIF(parent, 0)`, not edited, and a path placed under its parent. A parent missing from the thread rejects the row. |
| PostStore.NewRowKeepsTreeShape | utils/constants/constants.go:126 | Inserting one row keeps the table tree-shaped. |
| PostStore.InsertAll | utils/constants/constants.go:123-124 | One multi-row INSERT: every row goes in with consecutive ids, or none does. |
| PostStore.InsertAllCarries | app/repositories/thread.go:149 | Row i of an insert carries request i and the id `nextId + i`. |
| PostStore.InsertAllKeepsTreeShape | utils/constants/constants.go:123-124 | A successful insert keeps the table tree-shaped. |
| PostStore.InsertAllFails | utils/constants/constants.go:123-124 | A failed insert fails at some first rejected row. |
| PostStore.PostTable.Insert | utils/constants/constants.go:126 | Draws the next id even when the row is rejected, and appends the row when it is accepted. |
| PostStore.PostTable.Execute | app/repositories/thread.go:154 | Runs an INSERT text with values: refused when it does not prepare; otherwise all rows or none go in, with the failure reported while running. |
| PostStore.PostTable.ExecuteRow | app/repositories/thread.go:113 | Runs one prepared one-row INSERT: one row back, or the rejection with the table unchanged. |
| PostStore.PostTable.Run | app/repositories/thread.go:154 | Runs prepared inserts in order and undoes all of them at the first rejection. |
| PostStore.PostTable.InsertNext | app/repositories/thread.go:154 | The next row of a statement whose earlier rows went in: it extends the run by one row, or is rejected and leaves the table as it was, drawing one id either way. |
| PostStore.PostTable.Rollback | app/repositories/thread.go:79-84 | Restores the saved rows, keeping the invariant. Drawn ids are not returned. |
| InsertText.Placeholders | app/repositories/thread.go:141-148 | Tuple i uses the six placeholders `6i+1` to `6i+6`. |
| InsertText.ReadInterleavedRoundTrip | app/repositories/thread.go:142-148 | Reading back placeholder numbers written between fixed separators gives the numbers again. |
| InsertText.ParseInsertQuery | app/repositories/thread.go:136-152 | The text built for n posts parses as n tuples of placeholders `6i+1..6i+6`. With no posts it does not parse. |
| InsertText.ParamCountPlaceholders | app/repositories/thread.go:141-149 | The text for n posts refers to exactly 6n parameters. |
| InsertText.BatchStatementIsOneTuple | utils/constants/constants.go:126 | The batch statement is the one-post instance of the multi-row text. |
| InsertText.PrepareInsert | app/repositories/thread.go:154 | Preparing an INSERT text with its values gives the row requests they bind, or the refusal. |
| ThreadRepository.ChooseQuery | app/repositories/thread.go:193-209 | The arguments passed always fit the chosen statement's placeholders. |
| ThreadRepository.GetPostsRunsListing | app/repositories/thread.go:193-209 | The no-cursor statement is used iff Since is 0, the descending map iff Desc, and the sort type picks the query. What runs is the requested listing, or the rejection of a negative limit. |
| ThreadRepository.GetPosts | app/repositories/thread.go:190-235 | As written: every listed post is scanned, or nil with the scan error. A negative limit gives an empty slice and no error. |
| ThreadRepository.GetPostsChecked | app/repositories/thread.go:190-235 | The same with the `rows.Err()` check: a negative limit is reported. |
| ThreadRepository.InsertValues | app/repositories/thread.go:149 | 6n values, value j being field `j % 6` of post `j / 6`. |
| ThreadRepository.Requests | app/repositories/thread.go:149 | One insert request per post, in order. |
| ThreadRepository.BindTuple | app/repositories/thread.go:142-149 | Tuple i binds to post i: its parent (0 meaning NULL), author, the forum slug, the thread id, message and the shared creation time. |
| ThreadRepository.PrepareCreatePosts | app/repositories/thread.go:136-154 | The built text and values prepare into exactly the posts' requests when there are posts; with none they are refused. |
| ThreadRepository.TrimSuffix | app/repositories/thread.go:151 | `strings.TrimSuffix`: strips the suffix when present and otherwise changes nothing. |
| ThreadRepository.TerminatedIsJoined | app/repositories/thread.go:142 | Tuples each followed by a comma are the comma-joined tuples plus one trailing comma. |
| ThreadRepository.TrimTrailingComma | app/repositories/thread.go:151-152 | Trimming the trailing comma leaves the comma-separated tuples. |
| ThreadRepository.BuildCreatePosts | app/repositories/thread.go:136-152 | The loop builds exactly the multi-row text for the number of posts and the 6n values. |
| ThreadRepository.CreatedPostsEchoRequests | app/repositories/thread.go:138-149 | Every created post echoes its request: consecutive ids, the given parent, author and message, the forum and thread, one shared timestamp, not edited. |
| ThreadRepository.CreatePosts | app/repositories/thread.go:135-188 | No posts: syntax error and nothing changes. Otherwise all rows go in and come back scanned; or none goes in and the rejection is reported with an empty slice. A scan fault leaves the rows inserted. |
| ThreadRepository.PrepareBatchStatement | app/repositories/thread.go:97 | The per-post batch statement prepares into that post's request. |
| ThreadRepository.QueueBatch | app/repositories/thread.go:93-98 | One queued statement per post, each preparing into that post's request. |
| ThreadRepository.SendBatch | app/repositories/thread.go:100 | One pending statement per queued one. |
| ThreadRepository.ReadRow | app/repositories/thread.go:113-127 | Reading one batch result extends the successful prefix of the insert by one row, or shows that the whole insert fails. |
| ThreadRepository.ReadBatch | app/repositories/thread.go:108-132 | The read loop. All rows come back in order. Otherwise it stops at whichever comes first, with a nil slice: ScanFailure exactly when a row that does not scan is reached before any rejection, else the rejection. |
| ThreadRepository.RejectionFirst | app/repositories/thread.go:113-127 | A rejection met before any row failed to scan means no scan fault comes first. |
| ThreadRepository.CloseBatch | app/repositories/thread.go:101-106 | The deferred `batchRes.Close()`: the statements not yet read still run, in order. It reports a rejection iff some statement of the batch is rejected. |
| ThreadRepository.CreatePostsBatch | app/repositories/thread.go:73-133 | All or nothing: on success every post is inserted and returned in input order. Otherwise the table is rolled back and a nil slice comes back. The error is RowRejected iff some row is rejected, even after a scan fault, because Close's error replaces it. It is ScanFailure only when every row went in. |
| ThreadRepository.GetBySlug | app/repositories/thread.go:33-39 | The thread with that slug, or the zero thread and ErrNoRows. An empty slug matches nothing. |
| Driver.CollectRows | app/repositories/thread.go:216-233 | The `rows.Next()` loop: every row scanned, in order, or nil with the scan error at the first row that does not scan. |
| Driver.ListIgnoringStreamError | app/repositories/thread.go:211-234 | A listing that never consults `rows.Err()`: a run-time failure reads as an empty slice with no error. |
| Driver.ListCheckingStreamError | app/repositories/thread.go:155-187 | A listing followed by `rows.Err()`: a run-time failure is reported. |
| Driver.ScanRow | app/repositories/forum.go:41-53 | `QueryRow(...).Scan` into a new struct: the pointer is never nil. No error iff a row came back; then it holds the first row, otherwise the zero value. |
| Decimal.AtoiItoa | app/usecases/post.go:57 | `strconv.Itoa` text reads back as the same number. |
| Decimal.ItoaInjective | app/usecases/post.go:57 | Different thread ids give different decimal texts. |
| Updates.UpdateWhere | utils/constants/constants.go:109-112 | An UPDATE changes exactly the rows its WHERE matches and leaves the others. |
| Updates.UpdateReturning | utils/constants/constants.go:109-112 | UPDATE ... RETURNING read with QueryRow: no row when nothing matches, otherwise the updated table and a changed matching row. |
| Updates.EditPost | utils/constants/constants.go:109-112 | The message is replaced only by a non-empty one. isEdited becomes true iff it was true, or the new message is non-empty and differs; nothing else changes. |
| Updates.EditPostIdempotent | utils/constants/constants.go:109-112 | Sending the same edit twice equals sending it once. |
| Updates.EditAll | utils/constants/constants.go:109-112 | Any series of edits keeps the post's id, path, parent and thread. |
| Updates.EditedIffChanged | utils/constants/constants.go:110-111 | After any series of edits a post is marked edited iff it was, or some edit changed its message: the flag never returns to false. |
| Updates.UneditedKeepsMessage | utils/constants/constants.go:110-111 | A post still not marked edited has its original message. |
| Updates.UpdatePost | utils/constants/constants.go:109-112 | No row iff no post has the id. Otherwise only that post is edited and the edited row is returned. |
| Updates.UpdatePostEditsOne | utils/constants/constants.go:109-112 | With one row per id, the statement edits exactly the posts with that id, adds no other row, and returns the edit of the stored post. |
| Updates.UpdatePostKeepsTreeShape | utils/constants/constants.go:109-112 | Editing never moves a post in the reply tree. |
| Updates.PatchUser | utils/constants/constants.go:141-144 | A field given as "" keeps the stored value; a non-empty one replaces it; the nickname is kept. |
| Updates.PatchUserIdempotent | utils/constants/constants.go:141-144 | Patching twice equals patching once; an all-blank patch changes nothing. |
| Updates.UpdateUser | utils/constants/constants.go:141-144 | No row iff the nickname is unknown. Otherwise the user is patched and returned, and the other users are unchanged. |
| Updates.PatchThread | utils/constants/constants.go:129-131 | A blank title or message keeps the stored one; nothing else changes. |
| Updates.UpdateThread | utils/constants/constants.go:129-135 | By id or by slug (a thread without a slug matches none): no row iff nothing matches, otherwise the patched thread. |
| Updates.VoteOf | utils/constants/constants.go:125 | The voice of a voter in a thread, if they voted. |
| Updates.UpsertKeepsUniqueVoters | utils/constants/constants.go:125 | The upsert keeps at most one vote per (nickname, thread). |
| Updates.UpsertOverwrites | utils/constants/constants.go:125 | After an upsert the voter's voice is the new one and every other voice is unchanged. |
| Updates.VoteBySlug | utils/constants/constants.go:127-128 | An unknown slug is a not_null_violation; otherwise the vote is upserted on that thread's id. |
| ForumQueries.ForumThreads | utils/constants/constants.go:94-98 | A page, in creation order, of the forum's threads within the inclusive since bound. |
| ForumQueries.ForumThreadsFacts | utils/constants/constants.go:94-98 | Only threads of the forum within `created <= since` (desc) or `created >= since` (asc), at most `limit`, in creation order. All of them when fewer than `limit` come back, and none skipped that was created ahead. |
| ForumQueries.ThreadPageOrder | utils/constants/constants.go:94-97 | A page of threads by creation time holds only candidates, its times never go backwards, and no left-out candidate was created ahead of a kept thread. |
| ForumQueries.MembersOf | utils/constants/constants.go:99 | The join: exactly the users named by a forum_users row of the forum. |
| ForumQueries.ForumUsers | utils/constants/constants.go:99-103 | A page, in nickname order, of the forum's users strictly beyond the since nickname. |
| ForumQueries.ForumUsersFacts | utils/constants/constants.go:99-103 | Only users with a forum_users row of the forum, with nickname strictly below (desc) or above (asc) the since, at most `limit`, in nickname order. All of them when fewer than `limit` come back. |
| ForumQueries.UserPageOrder | utils/constants/constants.go:100-103 | A page of users by nickname holds only candidates, its nicknames never go backwards, and no left-out candidate comes ahead of a kept user. |
| ForumQueries.NicknameLessTotal | utils/constants/constants.go:100 | Different nicknames are strictly ordered, so a page of distinct users is strictly ordered. |
| ForumStore.InsertForum | utils/constants/constants.go:92 | The forum Create statement. The id is drawn always. 23502 iff the owner is unknown; 23505 iff the owner is known and the slug is taken. Otherwise the forum is appended with no posts and no threads. |
| ForumStore.SelectForum | utils/constants/constants.go:93 | The forums with that slug; some iff the forum exists. |
| ForumStore.InsertThread | utils/constants/constants.go:104-105 | The CreateThread statement. 23502 iff the author or forum is unknown; 23505 iff the non-empty slug is taken. Otherwise the thread is appended with the next id and no votes. |
| ForumStore.SelectThreadBySlug | utils/constants/constants.go:122 | The threads with that non-empty slug; some iff one exists. |
| ForumStore.InsertForumKeepsConsistent | utils/constants/constants.go:92 | Creating a forum keeps slugs unique and every reference to a forum valid. |
| ForumStore.InsertThreadKeepsConsistent | utils/constants/constants.go:104-105 | Creating a thread keeps slugs unique and every reference to a forum valid. |
| ForumStore.OneForumPerSlug | utils/constants/constants.go:93 | In a consistent store a slug names at most one forum. |
| ForumStore.OneThreadPerSlug | utils/constants/constants.go:122 | In a consistent store a non-empty slug names at most one thread. |
| ForumRepository.Create | app/repositories/forum.go:28-39 | No error iff the owner exists and the slug is free; then the forum comes back with id 0, as RETURNING has no id. Otherwise the zero forum with 23502 or 23505. |
| ForumRepository.Get | app/repositories/forum.go:41-53 | The stored forum with that slug, or the zero forum and ErrNoRows. |
| ForumRepository.CreateThread | app/repositories/forum.go:55-70 | No error iff author and forum exist and the slug is free; then the thread with the next id and no votes is stored and returned. Otherwise the zero thread with 23502 or 23505. |
| ForumRepository.ChooseThreadQuery | app/repositories/forum.go:75-89 | The bounded suffix iff since is not the zero time, the descending one iff Desc. Arguments are (slug, since, limit) or (slug, limit). |
| ForumRepository.GetThreadsRunsListing | app/repositories/forum.go:72-89 | The assembled statement runs the requested thread listing, or fails on a negative limit. |
| ForumRepository.GetThreads | app/repositories/forum.go:72-116 | As written: the listing scanned, or nil on a scan fault. A negative limit gives an empty slice and no error. |
| ForumRepository.GetThreadsChecked | app/repositories/forum.go:72-116 | The same with `rows.Err()` checked: a negative limit is reported. |
| ForumRepository.ChooseUserQuery | app/repositories/forum.go:121-136 | The bounded suffix iff since is non-empty, the descending one iff Desc. Arguments are (slug, since, limit) or (slug, limit). |
| ForumRepository.GetUsersRunsListing | app/repositories/forum.go:118-136 | The assembled statement runs the requested user listing, or fails on a negative limit. |
| ForumRepository.GetUsers | app/repositories/forum.go:118-159 | As written: the listing scanned, or nil on a scan fault. A negative limit gives an empty slice and no error. |
| ForumRepository.GetUsersChecked | app/repositories/forum.go:118-159 | The same with `rows.Err()` checked: a negative limit is reported. |
| ForumUseCase.TranslateCreate | app/usecases/forum.go:32-54 | No SQLSTATE reaches the caller. 23502 becomes "not found" with no value. 23505 gives the re-read value with "already exists", or ServerInternal when the re-read fails. Other SQLSTATEs give ServerInternal. Non-database errors and success pass through. |
| ForumUseCase.TranslateRead | app/usecases/forum.go:62-68 | ErrNoRows becomes the not-found error, any other error ServerInternal; no error stays no error. |
| ForumUseCase.CreateOutcomes | app/usecases/forum.go:29-57 | Unknown owner: NotFoundForumUser, no forum. New slug: the forum is created and answered with id 0. Taken slug: a stored forum with the slug and ForumAlreadyExists. Never ServerInternal; the store stays consistent. |
| ForumUseCase.CreateConflictAnswersStored | app/usecases/forum.go:41-48 | On a conflict in a consistent store the answer is the one stored forum with the slug. |
| ForumUseCase.CreateTwice | app/usecases/forum.go:29-57 | Creating a forum twice: the first answer has id 0, the second is the stored row, with its id, and ForumAlreadyExists. |
| ForumUseCase.Get | app/usecases/forum.go:59-71 | The forum with that slug, or the zero forum and NotFoundForum exactly when none exists. |
| ForumUseCase.GetAnswersStored | app/usecases/forum.go:59-71 | In a consistent store Get answers the one stored forum with the slug. |
| ForumUseCase.CreateThreadOutcomes | app/usecases/forum.go:73-101 | Unknown author or forum: ThreadUserOrForumNotFound, no thread. Free slug: created with the next id. Taken slug: a stored thread with the slug and ThreadAlreadyExists. Never ServerInternal; the store stays consistent. |
| ForumUseCase.CreateThreadWithoutSlug | utils/constants/constants.go:104 | A thread without a slug (stored as NULL) never conflicts. |
| ForumUseCase.CreateThreadConflictAnswersStored | app/usecases/forum.go:85-92 | On a conflict in a consistent store the answer is the one stored thread with the slug. |
| ForumUseCase.MissingForumListsNothing | app/usecases/forum.go:110-115 | In a consistent store a missing forum has no threads and no users in any listing. |
| ForumUseCase.GetThreads | app/usecases/forum.go:103-118 | Over the repository as written. A repository error gives ServerInternal. A non-empty listing is returned unchecked. An empty listing, including the one a negative limit gives, gets NotFoundForum iff the forum is missing, and otherwise no error. In a consistent store NotFoundForum comes iff the forum is missing. |
| ForumUseCase.GetThreadsChecked | app/usecases/forum.go:103-118 | The same use case over the repository that checks `rows.Err()`: a negative limit gives ServerInternal. |
| ForumUseCase.GetUsers | app/usecases/forum.go:120-136 | The same as GetThreads for the forum's users, over the repository as written: a negative limit answers an empty list with Get's error. |
| ForumUseCase.GetUsersChecked | app/usecases/forum.go:120-136 | The same use case over the repository that checks `rows.Err()`: a negative limit gives ServerInternal. |
| PostUseCase.SelectPost | utils/constants/constants.go:108 | The rows with that id; some iff such a post exists. |
| PostUseCase.FirstErrorIsFirst | app/usecases/post.go:48-73 | The error reported is that of the first name whose lookup fails. None iff every lookup succeeds. |
| PostUseCase.FirstErrorSticks | app/usecases/post.go:52-71 | Once a lookup fails, later names change nothing. |
| PostUseCase.Get | app/usecases/post.go:36-76 | A missing post gives PostNotFound with the empty post, and no lookup is made. Otherwise the error is that of the first failing lookup or unknown name (BadRequest), with no result. With no error, "user", "thread" and "forum" fill the author, thread and forum and nothing else is filled. |
| PostUseCase.LookUp | app/usecases/post.go:48-73 | The lookups in the order named: the error is that of the first failing name, with no result. With none failing, exactly the named relations are filled with what their lookups give. |
| PostUseCase.ThreadLookupKey | app/usecases/post.go:57 | The thread is looked up by the decimal text of the post's thread id, which names that id and no other. |
| PostUseCase.Update | app/usecases/post.go:78-91 | A missing post gives PostNotFound with the empty post and an unchanged table. Otherwise only that post is edited, the edited post is returned with no error, and the table stays tree-shaped. |

## Left out

- ForumRepository.GetThreads: threads with equal `created` come back in table order here, as the listing sorts stably. `ORDER BY created` leaves their order open in Postgres, so the exact sequence promised by this member, by `GetThreadsChecked`, and by `ForumUseCase.GetThreads` and its checked variant is one of the orders Postgres may return. `ForumQueries.ForumThreadsFacts` and `ForumQueries.ThreadPageOrder` state the page properties that every such order has.
- **Outside the core.** HTTP handlers, routing, JSON binding and the process
  wiring are not modelled. The service statements (TRUNCATE and the counts)
  and the user repository are not part of this model either. The
  `queryCheck` validator is not part of this model: the sort type is one of
  the three valid values, and any integer limit reaches the repository.
- **Other use cases.** usecases/user.go and usecases/thread.go are not part
  of this model. Their `Get` operations are the function parameters `userOf`
  and `threadOf` of `PostUseCase.Get`.
- **Triggers.** The database triggers that assign `path`, keep the forum
  counters and fill forum_users are not part of this model. Paths are data
  under the `TreeShaped` invariant. forum_users rows are data, and created
  forums and threads start with zero counters.
- **Rejected reply rows.** A reply whose parent is not in the thread is
  rejected as a whole-statement failure (`RowRejected`). The trigger that
  raises it is not part of this model.
- **Collation and case.** Nicknames and slugs compare by exact equality and
  code-point order (C collation). There is no case-insensitive `citext`.
- **Concurrency.** Connection-pool behaviour and isolation levels are not
  modelled; every statement runs alone on the current state.
- **Errors not modelled.** `Begin`, `Commit`, `Close` and rollback errors,
  connection loss, and driver errors other than refusal, run-time failure,
  ErrNoRows and scan faults.
- **Scan faults in single-row reads.** A scan fault in a `QueryRow` read
  cannot occur in the model. The `ServerInternal` branches of
  `ForumUseCase.Get` and `PostUseCase.Update` are stated in
  `ForumUseCase.TranslateRead`, but the store never reaches them.
- **Ids on rollback.** Ids drawn from a sequence by a rolled-back or failed
  insert are not given back (`nextId` only grows), as in Postgres.
- **Returned order.** The RETURNING order of a multi-row INSERT is taken to
  be the VALUES order.
- **Separate stores.** The post table and the forum-side tables are separate
  stores. The model does not state that a post's thread and forum exist.

## Findings

| source | as written | input that shows it | evidently intended | confidence | as-written member | corrected member |
|---|---|---|---|---|---|---|
| app/repositories/thread.go:211-234 | `GetPosts` reads the rows but never checks `rows.Err()`, so an error raised while the statement runs is dropped | `limit = -1`: Postgres raises 2201W while running; the call returns an empty slice and a nil error | report the error, as `CreatePosts` does at lines 182-185 | low, not executed | ThreadRepository.GetPosts | ThreadRepository.GetPostsChecked |
| app/repositories/forum.go:91-115 | `GetThreads` never checks `rows.Err()` | `limit = -1` on an existing forum: `ForumUseCase.GetThreads` answers an empty list with no error | the repository error, which the use case turns into ServerInternal | low, not executed | ForumRepository.GetThreads | ForumRepository.GetThreadsChecked |
| app/repositories/forum.go:138-158 | `GetUsers` never checks `rows.Err()` | `limit = -1` on an existing forum: `ForumUseCase.GetUsers` answers an empty list with no error | the repository error, turned into ServerInternal | low, not executed | ForumRepository.GetUsers | ForumRepository.GetUsersChecked |
