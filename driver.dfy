/**
 * What the repositories see of the database driver.  A statement is refused
 * while it is prepared (Query itself returns the error), fails while it runs
 * (the row stream ends and only `rows.Err()` reports the error), or yields its
 * rows.  Reading a row with `rows.Scan` can fail; the positions where it does
 * are given as `faults`.
 */
module Driver {
  import opened Wrappers
  import opened Models

  datatype Outcome<T> = Refused(err: Error) | Failed(err: Error) | Rows(rows: seq<T>)

  /** What `rows.Scan` reports for a row Go cannot hold. */
  const ScanFailure: Error := DriverError("can't scan row")

  function MapSeq<R, T>(s: seq<R>, f: R -> T): (r: seq<T>)
    ensures |r| == |s| && forall i :: 0 <= i < |s| ==> r[i] == f(s[i])
  {
    seq(|s|, i requires 0 <= i < |s| => f(s[i]))
  }

  /** Some row the stream delivers cannot be scanned. */
  predicate ScanFails(count: nat, faults: set<nat>)
  {
    exists i :: i in faults && i < count
  }

  /** What reading `rows` with `scan` gives: every row scanned, or a nil
      slice and the scan error when some row does not scan. */
  predicate Collected<R, T(==)>(rows: seq<R>, scan: R -> T, faults: set<nat>, out: Option<seq<T>>, err: Option<Error>)
  {
    if ScanFails(|rows|, faults) then out.None? && err == Some(ScanFailure)
    else out == Some(MapSeq(rows, scan)) && err.None?
  }

  /** The `for rows.Next()` loop of a listing: starts from an empty (non-nil)
      slice, appends each scanned row and gives up with a nil slice at the
      first row that does not scan. */
  method CollectRows<R, T>(rows: seq<R>, scan: R -> T, faults: set<nat>) returns (out: Option<seq<T>>, err: Option<Error>)
    ensures ScanFails(|rows|, faults) ==> out.None? && err == Some(ScanFailure)
    ensures !ScanFails(|rows|, faults) ==> out == Some(MapSeq(rows, scan)) && err.None?
  {
    var acc: seq<T> := [];
    var i := 0;
    while i < |rows|
      invariant 0 <= i <= |rows|
      invariant acc == MapSeq(rows[..i], scan)
      invariant forall k :: k in faults ==> k >= i
    {
      if i in faults {
        return None, Some(ScanFailure);
      }
      acc := acc + [scan(rows[i])];
      i := i + 1;
    }
    assert rows[..i] == rows;
    return Some(acc), None;
  }

  /** A listing that reads the stream and never consults `rows.Err()`: a
      statement that fails while running reads as an empty result. */
  method ListIgnoringStreamError<R, T>(outcome: Outcome<R>, scan: R -> T, faults: set<nat>)
    returns (out: Option<seq<T>>, err: Option<Error>)
    ensures outcome.Refused? ==> out.None? && err == Some(outcome.err)
    ensures outcome.Failed? ==> out == Some([]) && err.None?
    ensures outcome.Rows? && ScanFails(|outcome.rows|, faults) ==> out.None? && err == Some(ScanFailure)
    ensures outcome.Rows? && !ScanFails(|outcome.rows|, faults) ==> out == Some(MapSeq(outcome.rows, scan)) && err.None?
  {
    match outcome
    case Refused(e) =>
      out, err := None, Some(e);
    case Failed(_) =>
      out, err := CollectRows([], scan, faults);
    case Rows(rows) =>
      out, err := CollectRows(rows, scan, faults);
  }

  /** The same listing followed by `err = rows.Err()`, as CreatePosts does: a
      statement that fails while running is reported, with an empty slice. */
  method ListCheckingStreamError<R, T>(outcome: Outcome<R>, scan: R -> T, faults: set<nat>)
    returns (out: Option<seq<T>>, err: Option<Error>)
    ensures outcome.Refused? ==> out.None? && err == Some(outcome.err)
    ensures outcome.Failed? ==> out == Some([]) && err == Some(outcome.err)
    ensures outcome.Rows? && ScanFails(|outcome.rows|, faults) ==> out.None? && err == Some(ScanFailure)
    ensures outcome.Rows? && !ScanFails(|outcome.rows|, faults) ==> out == Some(MapSeq(outcome.rows, scan)) && err.None?
  {
    match outcome
    case Refused(e) =>
      out, err := None, Some(e);
    case Failed(e) =>
      out, err := CollectRows([], scan, faults);
      err := Some(e);
    case Rows(rows) =>
      out, err := CollectRows(rows, scan, faults);
  }

  /** `x = &T{}; err = QueryRow(...).Scan(...)`: the pointer is never nil.  It
      holds the first row, scanned, or the zero value together with the
      statement's error, or with ErrNoRows when no row came back. */
  function ScanRow<R, T>(outcome: Outcome<R>, scan: R -> T, zero: T): (r: Answer<T>)
    ensures r.value.Some?
    ensures r.err.None? <==> outcome.Rows? && |outcome.rows| > 0
    ensures r.err.None? ==> r.value.value == scan(outcome.rows[0])
    ensures r.err.Some? ==> r.value.value == zero
  {
    match outcome
    case Rows(rows) =>
      if |rows| == 0 then Answer(Some(zero), Some(NoRows)) else Answer(Some(scan(rows[0])), None)
    case Refused(e) => Answer(Some(zero), Some(e))
    case Failed(e) => Answer(Some(zero), Some(e))
  }
}
