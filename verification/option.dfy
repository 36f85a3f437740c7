/** A value that may be absent: an unreadable file or an unlistable directory. */
module Optional {

  datatype Option<+T> = None | Some(value: T)
}
