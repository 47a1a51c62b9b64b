/** A value that may be missing: Java's `null` for a string or a list element. */
module Optional {

  datatype Option<+T> = None | Some(value: T)
}
