/** Optional values, used for JavaScript's `undefined` query parameter and for
    the `null` that `String.prototype.match` returns when nothing matches. */
module Wrappers {

  datatype Option<+T> = None | Some(value: T)

}
