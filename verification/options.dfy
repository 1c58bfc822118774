/** Optional values: a SQL NULL column, a JavaScript `null`/`undefined`. */
module Options {

  datatype Option<+T> = None | Some(value: T)
}
