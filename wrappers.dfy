/** Option and Result values used for missing cells and for the exceptions the pipeline raises. */
module Wrappers {

  datatype Option<T> = None | Some(value: T) {
    function GetOr(default: T): T {
      match this
      case Some(v) => v
      case None => default
    }
  }

  /** The Python exception classes the modelled code can raise. */
  datatype Error =
    | KeyError(key: string)
    | TypeError(reason: string)
    | ValueError(reason: string)
    | UnboundLocalError(name: string)
    | InvalidIndexError(reason: string)

  datatype Result<T> = Ok(value: T) | Err(error: Error) {
    predicate IsFailure() { Err? }
    function PropagateFailure<U>(): Result<U>
      requires Err?
    {
      Err(error)
    }
    function Extract(): T
      requires Ok?
    {
      value
    }
  }

  /**
   * What a request to a web API produced once its JSON was decoded into records: the
   * records, or a failure (network error, bad JSON, missing field) the caller caught.
   */
  datatype Fetch<T> = Fetched(records: seq<T>) | Failed
}
