/** Optional values: the `undefined` that the repository's queries return when no row matches. */
module Wrappers {

  datatype Option<+T> = None | Some(value: T)
}
