/** The optional value used for Rust's `Option<T>` throughout the model. */
module Options {

  datatype Option<+T> = None | Some(value: T)
}
