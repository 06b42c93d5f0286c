/** Results of operations that may refuse, as the crates' `Result` types. */
module Outcome {

  datatype Error =
    | Corrupted
    | PageFull
    | KeyTooLarge
    | DuplicateKey
    | EntryNotFound
    | Unsupported
    | InvalidArgument
    | InvalidSlot
    | TupleTooLarge
    | SplitIncomplete
    | BufferPoolFull

  datatype Option<+T> = None | Some(value: T)

  datatype Result<+T> = Ok(value: T) | Err(error: Error)
  {
    predicate IsFailure() { Err? }

    function PropagateFailure<U>(): Result<U>
      requires Err?
    {
      Err(error)
    }

    function Extract(): T
      requires Ok?
    {
      value
    }
  }
}
