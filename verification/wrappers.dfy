/** Optional values, results, and the Python exceptions the scraper lets escape. */
module Wrappers {

  /** A value that may be absent (Python's `None`). */
  datatype Option<+T> = None | Some(value: T) {
    function GetOr(default: T): T {
      match this
      case Some(v) => v
      case None => default
    }
  }

  /** Either a computed value or the exception the source raises instead. */
  datatype Result<+R, +E> = Success(value: R) | Failure(error: E)

  /** The exceptions that escape the modelled functions uncaught. */
  datatype Raised =
    | UnboundLocalError   // `date_obj` read after a failed `strptime`
    | OverflowError       // date arithmetic leaving years 1..9999
    | AttributeError      // `.push` on a list, `.endswith` on `None`
}
