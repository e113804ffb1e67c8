/** The "value or nothing" datatype: Ruby's `nil`/`false` results become None. */
module Wrappers {

  datatype Option<+T> = None | Some(value: T)
}
