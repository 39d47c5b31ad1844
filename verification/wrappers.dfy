/** The two failure-carrying shapes the sequence code hands back: Rust's
    `Option` (what an iterator's `next` yields) and `Result` (what the
    fallible bounded constructors return). */
module Wrappers {

  datatype Option<+T> = None | Some(value: T)

  datatype Result<+T, +E> = Ok(value: T) | Err(error: E)
}
