/** Option and Result, the failure-carrying values the rest of the model returns
    where the build tool returns None or aborts with a fatal error. */
module Wrappers {

  datatype Option<+T> = None | Some(value: T)

  datatype Result<+T, +E> = Ok(value: T) | Err(error: E)
}
