/** Optional values and results with an error side, used wherever the
    modelled scripts return None, raise an exception or yield a pandas
    missing value. Both are failure-compatible, so `:-` can be used. */
module Outcomes {

  /** A value that may be absent (Python's None, or a pandas NaN cell once
      it has been read into a typed record). */
  datatype Option<+T> = None | Some(value: T) {

    predicate IsFailure() {
      None?
    }

    function PropagateFailure<U>(): Option<U>
      requires None?
    {
      None
    }

    function Extract(): T
      requires Some?
    {
      value
    }

    /** pandas' `fillna(default)` on one cell. */
    function GetOr(default: T): T {
      match this
      case Some(v) => v
      case None => default
    }
  }

  /** The outcome of a step that may raise: `Ok` carries the value, `Err`
      the exception that would have been raised. */
  datatype Result<+T, +E> = Ok(value: T) | Err(error: E) {

    predicate IsFailure() {
      Err?
    }

    function PropagateFailure<U>(): Result<U, E>
      requires Err?
    {
      Err(error)
    }

    function Extract(): T
      requires Ok?
    {
      value
    }
  }
}
