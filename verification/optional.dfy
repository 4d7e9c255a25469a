/** An optional value: a JSON field that may be absent, a DOM lookup that may find nothing. */
module Optional {

  datatype Option<+T> = None | Some(value: T)
}
