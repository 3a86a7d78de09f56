/** The absent-or-present value used wherever the script gets `None` back from a lookup. */
module Wrappers {

  datatype Option<+T> = None | Some(value: T)
}
