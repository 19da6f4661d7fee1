/** Optional values and the outcome of a step that may raise a Python exception. */
module Wrappers {

  /** Python's `None` or a present value. */
  datatype Option<+T> = None | Some(value: T) {

    /** The value, or `default` when it is None (Python's `d.get(k, default)`). */
    function GetOr(default: T): T {
      match this
      case Some(v) => v
      case None => default
    }
  }

  /** The exceptions the modelled code can let escape. */
  datatype Error =
    | FileNotFound   // open() on an HTML path that does not exist
    | ParserError    // lxml refuses the document (for example an empty one)
    | FormatError    // '{:.4f}'.format(None)

  /** A value, or the exception raised while computing it. */
  datatype Outcome<+T> = Done(value: T) | Raised(error: Error)
}
