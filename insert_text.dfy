/**
 * The text of the post INSERT statements and what the database reads out of
 * it: the VALUES tuples with their placeholder numbers, and the posts the
 * bound values then ask for.
 */
module InsertText {
  import opened Wrappers
  import opened Models
  import opened Decimal

  const PostsCreate: string := "INSERT INTO posts(parent, author, forum, thread, message, created) VALUES" + " "
  const CreatePostsTwo: string := " " + "RETURNING id, COALESCE(parent, 0), author, forum, thread, created, isEdited, message"
  /** The statement CreatePostsBatch queues once per post. */
  const CreatePostsBatch: string := PostsCreate + BatchTuple + CreatePostsTwo
  /** `(NULLIF($1, 0), $2, $3, $4, $5, $6)`, written in pieces. */
  const BatchTuple: string :=
    "(NULLIF($" + "1" + (", 0), $" + "2" + (", $" + "3" + (", $" + "4" + (", $" + "5" + (", $" + "6" + ")")))))

  /** The literal text around the six placeholders of one VALUES tuple. */
  const TupleSeps: seq<string> := ["(NULLIF($", ", 0), $", ", $", ", $", ", $", ", $", ")"]

  /** `seps[0]`, the first number, `seps[1]`, the second number, ... */
  function Interleave(seps: seq<string>, ns: seq<nat>): string
    requires |seps| == |ns| + 1
  {
    if ns == [] then seps[0] else seps[0] + Digits(ns[0]) + Interleave(seps[1..], ns[1..])
  }

  /** The placeholders `first`, ..., `first + 5`. */
  function Six(first: nat): (ps: seq<nat>)
    ensures |ps| == 6 && forall k :: 0 <= k < 6 ==> ps[k] == first + k
  {
    [first, first + 1, first + 2, first + 3, first + 4, first + 5]
  }

  /** `(NULLIF($a, 0), $b, $c, $d, $e, $f)` with a = first, b = first + 1, ... */
  function TupleText(first: nat): string
  {
    Interleave(TupleSeps, Six(first))
  }

  /** `strings.Join(parts, ",")` */
  function JoinParts(parts: seq<string>): string
    requires |parts| > 0
  {
    if |parts| == 1 then parts[0] else parts[0] + ("," + JoinParts(parts[1..]))
  }

  /** The VALUES tuples of n posts; tuple i starts at placeholder 6i + 1. */
  function Tuples(n: nat): (ts: seq<string>)
    ensures |ts| == n && forall i :: 0 <= i < n ==> ts[i] == TupleText(6 * i + 1)
  {
    seq(n, i requires 0 <= i < n => TupleText(6 * i + 1))
  }

  /** The multi-row INSERT for n posts. */
  function InsertQuery(n: nat): string
  {
    if n == 0 then PostsCreate + CreatePostsTwo else PostsCreate + (JoinParts(Tuples(n)) + CreatePostsTwo)
  }

  /** The placeholder numbers of the n tuples the multi-row INSERT should hold. */
  function Placeholders(n: nat): (ts: seq<seq<nat>>)
    ensures |ts| == n && forall i :: 0 <= i < n ==> ts[i] == Six(6 * i + 1)
  {
    seq(n, i requires 0 <= i < n => Six(6 * i + 1))
  }

  // ---------------------------------------------------------------- reading the text

  /** Strips the literal `lit` from the head of `s`. */
  function Expect(lit: string, s: string): (r: Option<string>)
    ensures r.Some? ==> |r.value| == |s| - |lit|
  {
    if |lit| <= |s| && s[..|lit|] == lit then Some(s[|lit|..]) else None
  }

  lemma ExpectLiteral(lit: string, rest: string)
    ensures Expect(lit, lit + rest) == Some(rest)
  {
    assert (lit + rest)[..|lit|] == lit;
    assert (lit + rest)[|lit|..] == rest;
  }

  /** Reads literal, number, literal, ..., literal, as written by Interleave. */
  function ReadInterleaved(seps: seq<string>, s: string): (r: Option<(seq<nat>, string)>)
    requires |seps| >= 1
    ensures r.Some? ==> |r.value.0| == |seps| - 1 && |r.value.1| <= |s|
    decreases |seps|
  {
    match Expect(seps[0], s)
    case None => None
    case Some(s1) =>
      if |seps| == 1 then Some(([], s1))
      else
        match ReadNat(s1)
        case None => None
        case Some((n, s2)) =>
          match ReadInterleaved(seps[1..], s2)
          case None => None
          case Some((ns, s3)) => Some(([n] + ns, s3))
  }

  /** Literals that do not start with a digit keep every number apart. */
  predicate Separating(seps: seq<string>)
  {
    forall k :: 1 <= k < |seps| ==> |seps[k]| > 0 && !IsDigit(seps[k][0])
  }

  lemma InterleaveStartsWith(seps: seq<string>, ns: seq<nat>, rest: string)
    requires |seps| == |ns| + 1 && |seps[0]| > 0
    ensures (Interleave(seps, ns) + rest)[0] == seps[0][0]
  {
  }

  lemma InterleaveCons(seps: seq<string>, ns: seq<nat>, rest: string)
    requires |seps| == |ns| + 1 && ns != []
    ensures Interleave(seps, ns) + rest == seps[0] + (Digits(ns[0]) + (Interleave(seps[1..], ns[1..]) + rest))
  {
  }

  lemma SeparatingTail(seps: seq<string>)
    requires |seps| >= 1 && Separating(seps)
    ensures Separating(seps[1..])
  {
    forall k | 1 <= k < |seps[1..]| ensures |seps[1..][k]| > 0 && !IsDigit(seps[1..][k][0]) {
      assert seps[1..][k] == seps[k + 1];
    }
  }

  /** One step of ReadInterleaved: a literal, a number, then the rest. */
  lemma ReadInterleavedCons(seps: seq<string>, s: string, s1: string, n: nat, s2: string, ns: seq<nat>, s3: string)
    requires |seps| >= 2 && Expect(seps[0], s) == Some(s1) && ReadNat(s1) == Some((n, s2))
    requires ReadInterleaved(seps[1..], s2) == Some((ns, s3))
    ensures ReadInterleaved(seps, s) == Some(([n] + ns, s3))
  {
  }

  lemma {:induction false} ReadInterleavedRoundTrip(seps: seq<string>, ns: seq<nat>, rest: string)
    requires |seps| == |ns| + 1 && Separating(seps)
    ensures ReadInterleaved(seps, Interleave(seps, ns) + rest) == Some((ns, rest))
    decreases |ns|
  {
    if ns == [] {
      ExpectLiteral(seps[0], rest);
    } else {
      var tail := Interleave(seps[1..], ns[1..]) + rest;
      InterleaveCons(seps, ns, rest);
      ExpectLiteral(seps[0], Digits(ns[0]) + tail);
      InterleaveStartsWith(seps[1..], ns[1..], rest);
      ReadDigits(ns[0], tail);
      SeparatingTail(seps);
      ReadInterleavedRoundTrip(seps[1..], ns[1..], rest);
      ReadInterleavedCons(seps, Interleave(seps, ns) + rest, Digits(ns[0]) + tail, ns[0], tail, ns[1..], rest);
      assert [ns[0]] + ns[1..] == ns;
    }
  }

  /** Reads comma-separated groups, each written around the literals `seps`,
      up to the closing clause `returning`. */
  function ReadTuples(seps: seq<string>, s: string, returning: string): (r: Option<seq<seq<nat>>>)
    requires |seps| >= 1
    decreases |s|
  {
    match ReadInterleaved(seps, s)
    case None => None
    case Some((ns, rest)) =>
      if |rest| > 0 && rest[0] == ',' then
        match ReadTuples(seps, rest[1..], returning)
        case None => None
        case Some(ts) => Some([ns] + ts)
      else if rest == returning then Some([ns])
      else None
  }

  /** The tuples of a post INSERT, or None when the text is not one. */
  function ParseInsert(q: string): Option<seq<seq<nat>>>
  {
    match Expect(PostsCreate, q)
    case None => None
    case Some(s) => ReadTuples(TupleSeps, s, CreatePostsTwo)
  }

  lemma TupleSepsSeparating()
    ensures Separating(TupleSeps)
  {
  }

  lemma ReadOneTuple(k: nat, rest: string)
    ensures ReadInterleaved(TupleSeps, TupleText(6 * k + 1) + rest) == Some((Six(6 * k + 1), rest))
  {
    TupleSepsSeparating();
    ReadInterleavedRoundTrip(TupleSeps, Six(6 * k + 1), rest);
  }

  /** Each part reads as its group, whatever follows it. */
  ghost predicate ReadsAs(seps: seq<string>, parts: seq<string>, tuples: seq<seq<nat>>)
    requires |seps| >= 1
  {
    |parts| == |tuples| &&
    forall i, r :: 0 <= i < |parts| ==> ReadInterleaved(seps, parts[i] + r) == Some((tuples[i], r))
  }

  lemma ReadsAsTail(seps: seq<string>, parts: seq<string>, tuples: seq<seq<nat>>)
    requires |seps| >= 1 && ReadsAs(seps, parts, tuples) && |parts| > 0
    ensures ReadsAs(seps, parts[1..], tuples[1..])
  {
    forall i, r | 0 <= i < |parts[1..]| ensures ReadInterleaved(seps, parts[1..][i] + r) == Some((tuples[1..][i], r)) {
      assert parts[1..][i] == parts[i + 1] && tuples[1..][i] == tuples[i + 1];
    }
  }

  /** Comma-joined parts, each of which reads as one group, read as those groups. */
  lemma {:induction false} ReadParts(seps: seq<string>, parts: seq<string>, tuples: seq<seq<nat>>, returning: string)
    requires |seps| >= 1 && ReadsAs(seps, parts, tuples) && |parts| > 0
    requires |returning| > 0 && returning[0] != ','
    ensures ReadTuples(seps, JoinParts(parts) + returning, returning) == Some(tuples)
    decreases |parts|
  {
    var rest := if |parts| == 1 then returning else "," + (JoinParts(parts[1..]) + returning);
    assert JoinParts(parts) + returning == parts[0] + rest;
    assert ReadInterleaved(seps, parts[0] + rest) == Some((tuples[0], rest));
    if |parts| == 1 {
      ReadLastPart(seps, parts[0] + rest, returning, tuples);
    } else {
      ReadsAsTail(seps, parts, tuples);
      ReadParts(seps, parts[1..], tuples[1..], returning);
      assert rest[1..] == JoinParts(parts[1..]) + returning;
      ReadNextPart(seps, parts[0] + rest, rest, returning, tuples);
    }
  }

  lemma ReadLastPart(seps: seq<string>, s: string, returning: string, tuples: seq<seq<nat>>)
    requires |seps| >= 1 && |tuples| == 1
    requires ReadInterleaved(seps, s) == Some((tuples[0], returning))
    requires |returning| > 0 && returning[0] != ','
    ensures ReadTuples(seps, s, returning) == Some(tuples)
  {
    assert [tuples[0]] == tuples;
  }

  lemma ReadNextPart(seps: seq<string>, s: string, rest: string, returning: string, tuples: seq<seq<nat>>)
    requires |seps| >= 1 && |tuples| > 1
    requires ReadInterleaved(seps, s) == Some((tuples[0], rest))
    requires |rest| > 0 && rest[0] == ',' && ReadTuples(seps, rest[1..], returning) == Some(tuples[1..])
    ensures ReadTuples(seps, s, returning) == Some(tuples)
  {
    assert [tuples[0]] + tuples[1..] == tuples;
  }

  lemma ReturningStartsWithBlank()
    ensures |CreatePostsTwo| > 0 && CreatePostsTwo[0] == ' '
  {
  }

  /** Read back, the INSERT for n > 0 posts holds n tuples, tuple i naming the
      placeholders 6i + 1, ..., 6i + 6; for no posts it is not valid SQL. */
  lemma ParseInsertQuery(n: nat)
    ensures ParseInsert(InsertQuery(n)) == if n == 0 then None else Some(Placeholders(n))
  {
    ReturningStartsWithBlank();
    if n == 0 {
      ExpectLiteral(PostsCreate, CreatePostsTwo);
      assert Expect(TupleSeps[0], CreatePostsTwo).None?;
    } else {
      var parts, tuples := Tuples(n), Placeholders(n);
      forall i, r | 0 <= i < n ensures ReadInterleaved(TupleSeps, parts[i] + r) == Some((tuples[i], r)) {
        ReadOneTuple(i, r);
      }
      assert ReadsAs(TupleSeps, parts, tuples);
      ReadParts(TupleSeps, parts, tuples, CreatePostsTwo);
      ExpectLiteral(PostsCreate, JoinParts(parts) + CreatePostsTwo);
    }
  }

  lemma Associative(a: string, b: string, c: string)
    ensures (a + b) + c == a + (b + c)
  {
  }

  lemma SmallDigits()
    ensures Digits(1) == "1" && Digits(2) == "2" && Digits(3) == "3"
    ensures Digits(4) == "4" && Digits(5) == "5" && Digits(6) == "6"
  {
  }

  lemma FirstTupleText()
    ensures TupleText(1) == BatchTuple
  {
    SmallDigits();
    var t := TupleSeps;
    assert Six(1) == [1, 2, 3, 4, 5, 6];
    assert Interleave(t[6..], []) == ")";
    assert Interleave(t[5..], [6]) == ", $" + "6" + ")";
    assert Interleave(t[4..], [5, 6]) == ", $" + "5" + (", $" + "6" + ")");
    assert Interleave(t[3..], [4, 5, 6]) == ", $" + "4" + (", $" + "5" + (", $" + "6" + ")"));
    assert Interleave(t[2..], [3, 4, 5, 6]) == ", $" + "3" + (", $" + "4" + (", $" + "5" + (", $" + "6" + ")")));
    assert Interleave(t[1..], [2, 3, 4, 5, 6]) == ", 0), $" + "2" + (", $" + "3" + (", $" + "4" + (", $" + "5" + (", $" + "6" + ")"))));
  }

  /** The per-row statement of CreatePostsBatch is the multi-row INSERT for one post. */
  lemma BatchStatementIsOneTuple()
    ensures CreatePostsBatch == InsertQuery(1)
  {
    FirstTupleText();
    assert JoinParts(Tuples(1)) == TupleText(1);
    Associative(PostsCreate, BatchTuple, CreatePostsTwo);
  }

  // ---------------------------------------------------------------- binding the values

  /** The value of placeholder `$p`. */
  function Arg(values: seq<Value>, p: nat): Option<Value>
  {
    if 1 <= p <= |values| then Some(values[p - 1]) else None
  }

  /** The post one tuple asks for: `NULLIF($a, 0)` as parent, then author,
      forum, thread, message and creation time; None when a placeholder has no
      value or a value of the wrong type. */
  function Bind(ps: seq<nat>, values: seq<Value>): Option<NewPost>
    requires |ps| == 6
  {
    match (Arg(values, ps[0]), Arg(values, ps[1]), Arg(values, ps[2]), Arg(values, ps[3]), Arg(values, ps[4]), Arg(values, ps[5]))
    case (Some(IntValue(parent)), Some(TextValue(author)), Some(TextValue(forum)), Some(IntValue(thread)),
          Some(TextValue(message)), Some(TimeValue(created))) =>
      Some(NewPost(if parent == 0 then None else Some(parent), author, forum, thread, message, created))
    case _ => None
  }

  function BindAll(tuples: seq<seq<nat>>, values: seq<Value>): (r: Option<seq<NewPost>>)
    requires forall i :: 0 <= i < |tuples| ==> |tuples[i]| == 6
    ensures r.Some? ==> |r.value| == |tuples| && forall i :: 0 <= i < |tuples| ==> Bind(tuples[i], values) == Some(r.value[i])
    ensures r.None? ==> exists i :: 0 <= i < |tuples| && Bind(tuples[i], values).None?
  {
    if tuples == [] then Some([])
    else
      match (Bind(tuples[0], values), BindAll(tuples[1..], values))
      case (Some(p), Some(ps)) =>
        assert forall i :: 1 <= i < |tuples| ==> tuples[i] == tuples[1..][i - 1];
        Some([p] + ps)
      case (None, _) => None
      case (_, None) =>
        var i :| 0 <= i < |tuples[1..]| && Bind(tuples[1..][i], values).None?;
        assert tuples[1..][i] == tuples[i + 1];
        None
  }

  function Max(a: nat, b: nat): nat { if a >= b then a else b }

  /** The highest of some placeholder numbers, 0 for none. */
  function MaxOf(ns: seq<nat>): (m: nat)
    ensures forall i :: 0 <= i < |ns| ==> ns[i] <= m
    ensures ns != [] ==> exists i :: 0 <= i < |ns| && ns[i] == m
  {
    if ns == [] then 0
    else
      var m := Max(MaxOf(ns[..|ns| - 1]), ns[|ns| - 1]);
      assert forall i :: 0 <= i < |ns| - 1 ==> ns[..|ns| - 1][i] == ns[i];
      m
  }

  /** The highest placeholder number of the statement: how many arguments it
      takes. */
  function ParamCount(tuples: seq<seq<nat>>): nat
  {
    if tuples == [] then 0 else Max(ParamCount(tuples[..|tuples| - 1]), MaxOf(tuples[|tuples| - 1]))
  }

  /** n tuples of six consecutive placeholders from $1 take 6n arguments. */
  lemma {:induction false} ParamCountPlaceholders(n: nat)
    ensures ParamCount(Placeholders(n)) == 6 * n
  {
    if n > 0 {
      assert Placeholders(n)[..n - 1] == Placeholders(n - 1);
      ParamCountPlaceholders(n - 1);
      var six := Six(6 * (n - 1) + 1);
      assert MaxOf(six) == 6 * n by {
        assert six[5] == 6 * n;
      }
    }
  }

  /** How the database prepares a post INSERT with its arguments. */
  datatype Prepared = Prepared(reqs: seq<NewPost>) | NotPrepared(err: Error)

  function PrepareInsert(query: string, values: seq<Value>): (r: Prepared)
    ensures r.Prepared? ==> exists ts :: ParseInsert(query) == Some(ts) && (forall i :: 0 <= i < |ts| ==> |ts[i]| == 6) &&
                                          BindAll(ts, values) == Some(r.reqs)
  {
    match ParseInsert(query)
    case None => NotPrepared(PgError(SyntaxError))
    case Some(ts) =>
      if exists i :: 0 <= i < |ts| && |ts[i]| != 6 then NotPrepared(PgError(SyntaxError))
      else if ParamCount(ts) != |values| then NotPrepared(DriverError("wrong number of arguments"))
      else
        match BindAll(ts, values)
        case None => NotPrepared(DriverError("cannot encode argument"))
        case Some(reqs) => Prepared(reqs)
  }
}
