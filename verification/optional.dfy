/** The value-or-nothing wrapper used for Python's `None`. */
module Optional {

  datatype Option<+T> = None | Some(value: T)

}
