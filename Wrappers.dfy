/** A nullable reference, as the source's `null` checks use it. */
module Wrappers {

  datatype Option<+T> = None | Some(value: T)
}
