/** The optional-value type shared by the other modules. */
module Wrappers {

  /** A value that may be absent; stands for a C# `null` or a missing entry. */
  datatype Option<+T> = None | Some(value: T)
}
