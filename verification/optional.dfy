/** Some/None, used for the parse oracle and for "first match" searches. */
module Optional {

  datatype Option<+T> = None | Some(value: T)
}
