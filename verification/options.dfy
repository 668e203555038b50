/** The optional value used wherever the tool's Python code uses `None`. */
module Options {

  datatype Option<+T> = None | Some(value: T)
}
