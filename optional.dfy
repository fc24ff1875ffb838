/** The Go code answers "nothing" with a nil interface or pointer; the model says None. */
module Optional {

  datatype Option<+T> = None | Some(value: T)
}
