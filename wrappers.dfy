/** Option and Result, as used by the query layer for nullable joins and fallible queries. */
module Wrappers {

  datatype Option<+T> = None | Some(value: T)

  datatype Result<+T, +E> = Ok(value: T) | Err(error: E)
}
