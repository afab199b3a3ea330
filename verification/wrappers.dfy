/** The optional-value type of this model; it is a plain datatype, with no failure-propagation members. */
module Wrappers {

  /** `None` stands for a missing value; in the matcher it stands for JavaScript's `Infinity`. */
  datatype Option<+T> = None | Some(value: T)
}
