/** Small value wrappers shared by the model: a nullable value and a result that may carry an error. */
module Common {

  /** A value that may be absent (a C# `null` or an empty `Nullable<T>`). */
  datatype Option<+T> = None | Some(value: T) {
    function GetOr(default: T): T {
      match this
      case Some(v) => v
      case None => default
    }
  }

  /** The outcome of an operation that may throw. */
  datatype Result<+T, +E> = Success(value: T) | Failure(error: E)
}
