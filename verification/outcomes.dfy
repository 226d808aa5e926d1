/** Failure-carrying result types shared by every module of the model.
    The Python code signals "no value" with `None` and failures with exceptions;
    here both become ordinary values. */
module Outcomes {

  /** An optional value (`Optional[...]` in the source). */
  datatype Option<+T> = None | Some(value: T)

  /** Either a result or the exception the source would raise. */
  datatype Result<+T, +E> = Ok(value: T) | Err(error: E)
}
