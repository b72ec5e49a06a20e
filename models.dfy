/**
 * The entities of the forum back end (app/models) and the rows the store keeps
 * for them.  Times are instants written as integers; 0 is Go's zero time.
 */
module Models {
  import opened Wrappers

  type Time = int

  /** `time.Time{}`, the value of an absent `since` parameter. */
  const ZeroTime: Time := 0

  datatype SortType = Flat | Tree | ParentTree

  /** A row of the posts table.  `parent` is NULL for a root post, and `path`
      holds the ids of the post's ancestors followed by its own id. */
  datatype PostRow = PostRow(
    id: int,
    parent: Option<int>,
    author: string,
    forum: string,
    thread: int,
    created: Time,
    isEdited: bool,
    message: string,
    path: seq<int>)

  /** A post as the application sees it: no path, and parent 0 for a root. */
  datatype Post = Post(
    id: int,
    parent: int,
    author: string,
    forum: string,
    thread: int,
    created: Time,
    isEdited: bool,
    message: string)

  /** The columns every post query selects: `COALESCE(parent, 0)` and no path. */
  function ScanPost(row: PostRow): (p: Post)
    ensures p.id == row.id && p.thread == row.thread && p.message == row.message
    ensures p.parent == 0 <==> row.parent.None? || row.parent.value == 0
  {
    Post(row.id, row.parent.GetOr(0), row.author, row.forum, row.thread,
         row.created, row.isEdited, row.message)
  }

  datatype PostsQueryParams = PostsQueryParams(limit: int, since: int, sortType: SortType, desc: bool)

  datatype Forum = Forum(id: int, slug: string, title: string, user: string, posts: int, threads: int)

  datatype ForumQueryParams = ForumQueryParams(limit: int, since: Time, desc: bool)

  datatype ForumUserQueryParams = ForumUserQueryParams(limit: int, since: string, desc: bool)

  /** A thread; an empty slug stands for the NULL slug of a thread without one. */
  datatype Thread = Thread(
    id: int,
    slug: string,
    author: string,
    forum: string,
    title: string,
    message: string,
    created: Time,
    votes: int)

  datatype User = User(nickname: string, fullname: string, about: string, email: string)

  datatype Vote = Vote(nickname: string, thread: int, voice: int)

  /** A post with the related entities a caller asked for. */
  datatype ParamsPost = ParamsPost(post: Option<Post>, author: Option<User>, thread: Option<Thread>, forum: Option<Forum>)

  /** The errors that cross the core: what the store raises (pgx.ErrNoRows, a
      *pgconn.PgError with its SQLSTATE, any other driver failure) and what the
      use cases translate them into. */
  datatype Error =
    | NoRows
    | PgError(sqlState: string)
    | DriverError(message: string)
    | NotFoundForumUser
    | ForumAlreadyExists
    | NotFoundForum
    | ThreadUserOrForumNotFound
    | ThreadAlreadyExists
    | PostNotFound
    | BadRequest
    | ServerInternal
    | LookupFailed(relation: string)
    /** the store refused a post whose parent is not a post of its thread */
    | RowRejected

  /** SQLSTATE not_null_violation */
  const NotNullViolation: string := "23502"
  /** SQLSTATE unique_violation */
  const UniqueViolation: string := "23505"
  /** SQLSTATE invalid_row_count_in_limit_clause, raised for a negative LIMIT */
  const NegativeLimit: string := "2201W"
  /** SQLSTATE syntax_error */
  const SyntaxError: string := "42601"

  /** What one bound INSERT tuple asks the posts table for.  `parent` is the
      value of `NULLIF($k, 0)`: None makes a root post. */
  datatype NewPost = NewPost(parent: Option<int>, author: string, forum: string, thread: int, message: string, created: Time)

  /** The zero values a Go pointer to a fresh struct holds before Scan fills it. */
  const ZeroPost: Post := Post(0, 0, "", "", 0, ZeroTime, false, "")
  const ZeroForum: Forum := Forum(0, "", "", "", 0, 0)
  const ZeroThread: Thread := Thread(0, "", "", "", "", "", ZeroTime, 0)

  /** A Go argument of a statement. */
  datatype Value = IntValue(i: int) | TextValue(s: string) | TimeValue(t: Time)

  /** A Go pair (pointer, error): `value` is None where the pointer is nil. */
  datatype Answer<T> = Answer(value: Option<T>, err: Option<Error>)
}
