/** Swift's `Optional`, as used for a task's due date and for `firstIndex(where:)`. */
module Wrappers {

  datatype Option<+T> = None | Some(value: T)
}
