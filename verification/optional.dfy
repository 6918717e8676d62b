/** The usual Some/None wrapper, for results that may be absent (a failed download, blank input). */
module Optional {

  datatype Option<+T> = None | Some(value: T)

}
