/** The option type the modules share: the source's `null` or `undefined`, or a value. */
module Wrappers {
  datatype Option<+T> = None | Some(value: T)
}
