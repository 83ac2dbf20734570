/** Option and Result, used where the C++ code returns std::optional, throws,
    or would abort. */
module Wrappers {
  datatype Option<+T> = None | Some(value: T)

  datatype Result<+T, +E> = Ok(value: T) | Err(error: E)
}
