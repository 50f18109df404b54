/** A value or none: the source's nil results and "found" flags. */
module Options {
  datatype Option<+T> = None | Some(value: T)
}
