/** Option and Result values: the model's stand-ins for Kotlin's nullable
    returns and for the exceptions the core throws. */
module Wrappers {

  datatype Option<+T> = None | Some(value: T)

  datatype Result<+T, +E> = Ok(value: T) | Err(error: E)
}
