/** Option and Result types used across the model. A Python function that
    raises is modelled as returning `Err` with the kind of exception. */
module Wrappers {

  datatype Option<+T> = None | Some(value: T) {
    function GetOr(default: T): T {
      match this
      case Some(v) => v
      case None => default
    }
  }

  /** The exception kinds the modelled code raises or lets through. */
  datatype Error =
    | ValueError(msg: string)
    | TypeError(msg: string)
    | DecodeError(msg: string)
    | DockerApiError(msg: string)
    | ImageNotFound(msg: string)
    | TarReadError(msg: string)
    | QueueError(msg: string)

  datatype Result<+T> = Ok(value: T) | Err(error: Error) {
    predicate IsFailure() { Err? }

    function PropagateFailure<U>(): Result<U>
      requires Err?
    {
      Err(error)
    }

    function Extract(): T
      requires Ok?
    {
      value
    }
  }
}
