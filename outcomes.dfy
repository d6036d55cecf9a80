/** Result types shared by the validator's modules. */
module Outcomes {

  datatype Option<+T> = None | Some(value: T)

  /** The outcome of a check that either completes or fails with an error,
      standing in for a PHP method that returns nothing or throws. */
  datatype Outcome<+E> = Pass | Fail(error: E)
}
