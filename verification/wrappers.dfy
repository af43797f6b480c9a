/** Optional values. The page script reads attributes and form fields that may
    be absent (`getAttribute` and `FormData.get` return `null`); `None` stands
    for that `null`. Equality of two `Option`s matches JavaScript's `===` on
    such results: two absent values compare equal, an absent value never
    equals a string. */
module Wrappers {

  datatype Option<+T> = None | Some(value: T)

}
