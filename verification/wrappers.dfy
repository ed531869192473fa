/** Swift's `Optional`: the result of `getOptional` and of a closure's optional lookups. */
module Wrappers {

  datatype Option<+T> = None | Some(value: T)

}
