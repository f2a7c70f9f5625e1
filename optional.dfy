/** The absent-or-present values that stand for Java's nullable references. */
module Optional {
  datatype Option<+T> = None | Some(value: T)
}
