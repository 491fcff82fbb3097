/** Failure-compatible wrappers and the row deletion shared by the model. */
module Wrappers {

  datatype Option<+T> = None | Some(value: T)

  /** The outcome of an HTTP handler: a value, or an error status with its `detail` text. */
  datatype Result<+T> = Ok(value: T) | Err(status: nat, detail: string)

  /** `db.delete(row)` on a table held as a sequence: exactly the row at `i` leaves, the others keep their order. */
  function Delete<T>(rows: seq<T>, i: nat): (r: seq<T>)
    requires i < |rows|
    ensures |r| == |rows| - 1
    ensures multiset(r) + multiset{rows[i]} == multiset(rows)
  {
    assert rows == rows[..i] + [rows[i]] + rows[i + 1..];
    rows[..i] + rows[i + 1..]
  }
}
