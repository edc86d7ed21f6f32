/** Option and Result, shared by every module of the model:
    `Option` for values that may be absent (a `std::optional`), and
    `Result` for operations that either succeed or report an error
    (a thrown exception or an `Expected` error value). */
module Wrappers {

  datatype Option<+T> = None | Some(value: T)

  datatype Result<+T, +E> = Ok(value: T) | Err(error: E)
}
