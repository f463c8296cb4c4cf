/** Small failure-carrying datatypes shared by the other modules. */
module Wrappers {

  /** A value that may be absent, used where the C# code holds a nullable reference. */
  datatype Option<+T> = None | Some(value: T)

  /** The outcome of an operation that the C# code can abort with an exception. */
  datatype Result<+T, +E> = Ok(value: T) | Err(error: E)
}
