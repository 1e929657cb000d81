/** Kotlin's nullable references, as a datatype. */
module Wrappers {

  /** `None` stands for Kotlin's `null`. */
  datatype Option<+T> = None | Some(value: T)
}
