// The optional value used throughout the model (Rust's Option).

module Maybe {
  datatype Option<T> = None | Some(value: T)
}
