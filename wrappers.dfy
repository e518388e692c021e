/** A pointer that may be null: `None` stands for C's NULL. */
module Wrappers {

  datatype Option<+T> = None | Some(value: T)
}
