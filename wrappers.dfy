/** Option and Result, the two failure-carrying shapes the favorites model uses:
    Option stands for a C# reference that may be null, Result for a call that
    either returns a value or throws. */
module Wrappers {

  datatype Option<+T> = None | Some(value: T)

  datatype Result<+R, +E> = Success(value: R) | Failure(error: E)
}
