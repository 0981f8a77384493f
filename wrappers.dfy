/** Failure-carrying results shared by every puzzle module. A `None` or an `Err`
    returned by a parse or compute member stands for the program aborting
    (an `unwrap`, `expect` or `panic!` in the Rust source). */
module Wrappers {

  datatype Option<T> = None | Some(value: T)

  datatype Result<T, E> = Ok(value: T) | Err(error: E)
}
