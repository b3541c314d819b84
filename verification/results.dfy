/** Optional values and success-or-error results shared by the other modules. */
module Results {

  /** A value that may be absent (JavaScript's `undefined`). */
  datatype Option<+T> = None | Some(value: T) {

    /** The carried value, or `default` when there is none. */
    function GetOr(default: T): T {
      match this
      case Some(v) => v
      case None => default
    }
  }

  /** Either a computed value or the reason the computation was abandoned. */
  datatype Result<+T, +E> = Ok(value: T) | Err(error: E)
}
