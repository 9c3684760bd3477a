/** Small failure-carrying datatypes shared by the model.
    - Option<T> stands for a .NET reference that may be null.
    - Outcome<T> is the result of a .NET call that either returns a value
      or throws; the exception type and message are not modelled.
 */
module Wrappers {

  /** A nullable reference: None is `null`. */
  datatype Option<+T> = None | Some(value: T)

  /** The result of a call that may throw. */
  datatype Outcome<+T> = Returns(value: T) | Throws
}
