/** The optional value and the fallible result, shared by the modules that need them. */
module Wrappers {
  datatype Option<T> = None | Some(value: T)

  /** Why an operation refused its input. */
  datatype Error = InvalidParams | LweShape | PreprocessMismatch | InvalidLength | NoncanonicalPadding | InvalidState | Mismatch

  datatype Result<T> = Ok(value: T) | Err(error: Error)
}
