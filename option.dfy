/** An optional value, shared by the page model and the script model. */
module Optional {
  datatype Option<T> = None | Some(value: T)
}
