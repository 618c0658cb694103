/** Failure-carrying results: the driver's `exit(1)` paths become `Failure` values. */
module Results {

  datatype Option<+T> = None | Some(value: T) {
    function GetOr(default: T): (v: T) {
      match this
      case Some(x) => x
      case None => default
    }
  }

  datatype Result<+T, +E> = Success(value: T) | Failure(error: E)
}
