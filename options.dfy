/** Optional values: JavaScript's `undefined`/`null` (and other falsy
    request fields) are `None`. */
module Options {
  datatype Option<+T> = None | Some(value: T)
}
