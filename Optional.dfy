/** A value that may be absent: a lookup that finds nothing, a parse that fails,
    a date field left empty. */
module Optional {
  datatype Option<+T> = None | Some(value: T)
}
