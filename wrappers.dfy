/** Option and Result, used for Python's `dict.get` misses and for the exceptions the modelled code raises. */
module Wrappers {
  datatype Option<+T> = None | Some(value: T)

  datatype Result<+R, +E> = Success(value: R) | Failure(error: E)

  /** The Python exceptions the modelled code can raise. */
  datatype Error =
    | KeyError(key: string)     // indexing a DataFrame or a dict with a missing label
    | ValueError(text: string)  // `int(s)` on a string that is not a decimal integer
    | TypeError                 // `int(x)` on None, a list or a dict
}
