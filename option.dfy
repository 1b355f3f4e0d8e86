/** The optional result of a search or an extraction: Python's `None` or a value. */
module Options {

  datatype Option<+T> = None | Some(value: T)

}
