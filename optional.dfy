/** The absent-or-present value that the source expresses with Python's `None`. */
module Optional {

  datatype Option<T> = None | Some(value: T)

}
