/** Failure-carrying values used throughout the model: JavaScript's `null`/`undefined`
    becomes `None`, and a thrown `Error` becomes `Failure` carrying its message. */
module Results {

  datatype Option<+T> = None | Some(value: T) {

    /** `x || fallback` for an optional value that is truthy whenever present. */
    function GetOr(fallback: T): T {
      match this
      case Some(v) => v
      case None => fallback
    }
  }

  datatype Result<+R, +E> = Success(value: R) | Failure(error: E)
}
