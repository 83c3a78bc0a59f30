/** The optional result of an intersection test, Rust's `Option`. */
module Options {
  datatype Option<T> = None | Some(value: T)
}
