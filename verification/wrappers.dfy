/** Small failure-carrying datatypes shared by the rest of the model. */
module Wrappers {

  /** Rust's `Option`: a value that may be missing. */
  datatype Option<+T> = None | Some(value: T)

  /** How a server function or a backend call finishes: with a value, with a
      `ServerFnError` carrying a message, or with a panic raised by an
      `.expect`, which aborts the request and carries the expect message. */
  datatype Reply<+T> = Ok(value: T) | Err(message: string) | Panic(message: string)
}
