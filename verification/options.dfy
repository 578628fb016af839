/** A value that may be missing: the model's stand-in for "not found". */
module Options {

  datatype Option<+T> = None | Some(value: T)
}
