/** Definitions shared by the model: `Option` for the source's `Option<T>`,
    `Result` for its `Result<T, E>`, and `Bytes` for its `Vec<u8>`. */
module Wrappers {

  type Bytes = seq<bv8>

  datatype Option<+T> = None | Some(value: T)

  datatype Result<+T, +E> = Ok(value: T) | Err(error: E)
}
