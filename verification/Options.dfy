/** A value or none: a pointer that may be null, or a step that may be impossible. */
module Options {
  datatype Option<+T> = None | Some(value: T)
}
