/** Failure-carrying values shared by the rest of the model: an optional value
    and the outcome of an operation that can throw. */
module Results {

  /** A value that may be absent. */
  datatype Option<+T> = None | Some(value: T)

  /** Either the operation's new value or the error it raised instead. */
  datatype Result<+T, +E> = Ok(value: T) | Err(error: E) {

    /** The new value, or `fallback` when the caller catches the error. */
    function ValueOr(fallback: T): T {
      match this
      case Ok(v) => v
      case Err(_) => fallback
    }
  }
}
