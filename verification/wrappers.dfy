/** Option and Result values for the absent fields and the exceptions of the dashboard code. */
module Wrappers {

  /** A value that may be absent: a missing dictionary key or a Python `None`. */
  datatype Option<+T> = None | Some(value: T) {
    /** The value, or `default` when absent (Python's `d.get(key, default)`). */
    function GetOr(default: T): T {
      if Some? then value else default
    }
  }

  /** The outcome of Python code that either returns a value or raises an exception. */
  datatype Result<+T> = Ok(value: T) | Raised(exception: string)
}
