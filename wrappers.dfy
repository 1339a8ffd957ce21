/** Nullable values and failing results, as the services return them. */
module Wrappers {

  /** A nullable value: `None` stands for C#'s `null` (or SQL's NULL). */
  datatype Option<+T> = None | Some(value: T) {

    /** C#'s `x ?? d`. */
    function GetOr(default: T): T {
      match this
      case Some(v) => v
      case None => default
    }
  }

  /** An operation that either succeeds with a value or throws. */
  datatype Result<+R, +E> = Ok(value: R) | Err(error: E)

  /** An operation without a value that either completes or throws. */
  datatype Outcome<+E> = Pass | Fail(error: E)

  /** A non-empty sequence is its front followed by its last element. */
  lemma SnocLast<T>(s: seq<T>)
    requires |s| > 0
    ensures s[..|s| - 1] + [s[|s| - 1]] == s
  {
  }
}
