/** Option and Result types shared by every module of the model. */
module Wrappers {

  /** A value that may be absent: a null pointer, a missing map entry, `std::optional`. */
  datatype Option<T> = None | Some(value: T)
  {
    function UnwrapOr(default: T): (r: T)
      ensures this.Some? ==> r == value
      ensures this.None? ==> r == default
    {
      match this
      case Some(v) => v
      case None => default
    }
  }

  /** The outcome of a check or an operation that can fail. */
  datatype Result<T, E> = Success(value: T) | Failure(error: E)
}
