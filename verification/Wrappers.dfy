/** Optional values, results and the errors they carry. */
module Wrappers {
  datatype Option<T> = None | Some(value: T)

  datatype Error =
    | InputFailure       // end of input or a failed read
    | LineTooLong        // "Input line too long!"
    | NotANumber         // std::invalid_argument, rethrown as Error
    | NumberOutOfRange   // std::out_of_range
    | TooBig             // a post_maxsize or max_post_size check
    | ReadFailed         // the allocation or read of a chunk of negative size
    | BoundaryMissing
    | NeverReturns       // the call loops for ever

  datatype Result<T> = Ok(value: T) | Err(error: Error)
  {
    predicate IsFailure() { Err? }
    function PropagateFailure<U>(): Result<U> requires Err? { Err(error) }
    function Extract(): T requires Ok? { value }
  }

  lemma Assoc<T>(a: seq<T>, b: seq<T>, c: seq<T>)
    ensures (a + b) + c == a + (b + c)
  {
  }
}
