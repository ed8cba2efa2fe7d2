/** Result and panic outcomes shared by the codec and the firmware. */
module Wrappers {

  datatype Option<+T> = None | Some(value: T)

  /** A Rust `Result<T, E>`. */
  datatype Result<+T, +E> = Ok(value: T) | Err(error: E)

  /**
   * What a Rust call does: it returns a `Result`, or it panics (through `assert!`,
   * `unimplemented!`, `panic!` or `.expect`) with the message Rust prints:
   * `unimplemented!(m)` prefixes "not implemented: ", and `.expect(m)` on an
   * `Err(e)` appends ": " and the error.
   */
  datatype Outcome<+T, +E> = Returned(result: Result<T, E>) | Panicked(message: string)
}
