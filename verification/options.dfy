/** The nullable references of the source (`null` strings, a `null`
    argument array, a `null` error code) become `Option` values. */
module Options {

  datatype Option<+T> = None | Some(value: T)
}
