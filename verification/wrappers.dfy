/** Wrappers used across the model: `Option` for values the source returns as
    `Option<T>`, `Result` for the source's `anyhow::Result`. */
module Wrappers {

  datatype Option<+T> = None | Some(value: T)

  /** `Err` carries the human-readable context message of the source's error. */
  datatype Result<+T> = Ok(value: T) | Err(message: string)
}
