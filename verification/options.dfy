/** The optional value the model uses for Rust's `Option`. */
module Options {

  datatype Option<+T> = None | Some(value: T)
}
