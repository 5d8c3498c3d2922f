/** The `null`/`undefined` of the visualiser's JavaScript, made explicit. */
module Options {

  datatype Option<+T> = None | Some(value: T)
}
