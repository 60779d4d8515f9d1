/** Failure-carrying results used across the model: Kotlin's nullable returns become
    Option, and the plugin's error dialogs become the Err side of a Result. */
module Wrappers {

  /** A value that may be absent, standing in for a Kotlin `T?`. */
  datatype Option<+T> = None | Some(value: T)

  /** A value or the error that replaced it. */
  datatype Result<+T, +E> = Ok(value: T) | Err(error: E)
}
