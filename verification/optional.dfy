/** An optional value, standing in for Python's `None` or an object reference. */
module Optional {

  datatype Option<+T> = None | Some(value: T)
}
