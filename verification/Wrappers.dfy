/** Failure-carrying datatypes shared by the pattern models: `Option` stands
    for a C# reference that may be null, `Result` for a value or the exception
    the C# code would throw instead. */
module Wrappers {

  datatype Option<+T> = None | Some(value: T)

  datatype Result<+T, +E> = Ok(value: T) | Err(error: E)
}
