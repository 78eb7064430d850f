/** Absent values and failures, as the store surfaces them: `undefined` becomes
    `None`, a thrown `Error` becomes `Failure`. */
module Wrappers {

  datatype Option<+T> = None | Some(value: T) {
    /** The value, or `fallback` when there is none. */
    function GetOr(fallback: T): T {
      if Some? then value else fallback
    }
  }

  datatype Result<+R, +E> = Success(value: R) | Failure(error: E)
}
