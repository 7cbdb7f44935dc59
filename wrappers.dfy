/** Small value types shared by the models: an optional value (standing for a
    possibly-null reference) and the outcome of a call that may throw. */
module Wrappers {

  /** `None` plays the role of a null reference. */
  datatype Option<+T> = None | Some(value: T)

  /** The outcome of a void call that may throw an exception of type E. */
  datatype Outcome<+E> = Pass | Fail(error: E)

  /** The Java exceptions thrown by the modelled collections. */
  datatype Exception = IllegalStateException | NullPointerException
}
