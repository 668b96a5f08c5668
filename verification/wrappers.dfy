/** The success-or-error value returned by the validator and the analysis pipeline. */
module Wrappers {

  datatype Result<+T, +E> = Ok(value: T) | Err(error: E)
}
