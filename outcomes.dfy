/** Option, the exceptions the element can throw, and the result types that carry them. */
module Outcomes {

  /** A value that may be missing: an attribute that is not set reads as `None` (JavaScript `null`). */
  datatype Option<T> = None | Some(value: T)

  /**
   * The exceptions thrown by the element: its own two (index.js lines 62 and 208) and
   * the `TypeError` of calling `replace` on a `null` text (index.js line 70).
   */
  datatype Error =
    | UnrecognizedStateOrder  // 'Unrecognized state order'
    | MinRdaError             // 'MinRda Error'
    | NullText                // TypeError: null has no method 'replace'

  /** The value of a computation that either returns or throws. */
  datatype Result<T> = Ok(value: T) | Err(error: Error)

  /** How a state-changing handler ended: it returned, or it threw. */
  datatype Status = Completed | Threw(error: Error)
}
