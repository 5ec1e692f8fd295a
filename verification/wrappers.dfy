/** Failure-carrying datatypes shared by the whole model. */
module Wrappers {

  /** A value that may be absent; stands for Python's `Optional[...]` / `None`. */
  datatype Option<+T> = None | Some(value: T)

  /** Either a success value or an error value; stands for the controller's
      `{"success": ..., "appointment": ... | "errors": [...]}` result dicts. */
  datatype Result<+R, +E> = Success(value: R) | Failure(error: E)
}
