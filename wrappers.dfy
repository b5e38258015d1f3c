/** The optional value the Rust code expresses with `Option<T>`. */
module Wrappers {

  datatype Option<+T> = None | Some(value: T)

  /** The outcome of an operation that can panic in the Rust code. */
  datatype Result<+T> = Ok(value: T) | Panic(reason: string)
}
