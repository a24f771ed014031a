/** The JavaScript `null`/`undefined` of a nullable field, as a value. */
module Optional {

  datatype Option<+T> = None | Some(value: T)
}
