/** The optional value shared by the other modules. */
module Wrappers {
  /** `None` stands for JavaScript's `null` (or for "no value" in general). */
  datatype Option<+T> = None | Some(value: T)
}
