/** Option and Result values used where the Python code returns None,
    raises, or exits with a message. */
module Wrappers {

  /** A value that may be absent (Python `None`, a missing JSON key or a null). */
  datatype Option<+T> = None | Some(value: T) {

    /** The value, or `default` when absent (Python `x or default` on a present-or-None value). */
    function GetOr(default: T): T {
      match this
      case Some(v) => v
      case None => default
    }
  }

  /** The outcome of a batch job: a value, or the message the job stopped with. */
  datatype Result<+T, +E> = Success(value: T) | Failure(error: E)
}
