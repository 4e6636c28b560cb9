/** The optional value Rust spells `Option<T>`: absent or present with a payload. */
module Optional {

  datatype Option<+T> = None | Some(value: T)
}
