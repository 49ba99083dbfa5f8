/** Optional values and results, standing in for Go's nil references, nil slices
    and `(value, error)` return pairs. */
module Wrappers {

  /** A Go reference or slice that may be nil: `None` is nil, `Some(v)` refers to `v`. */
  datatype Option<+T> = None | Some(value: T) {

    /** The pointed-at value, or `default` when nil (Go's "nil slice acts as empty"). */
    function GetOr(default: T): T {
      match this
      case Some(v) => v
      case None => default
    }
  }

  /** A Go `(value, error)` pair in which exactly one side is meaningful. */
  datatype Result<+T, +E> = Success(value: T) | Failure(error: E)
}
