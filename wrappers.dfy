/** The two small result shapes the model needs in place of Python's
    `None` and of a raised exception. */
module Wrappers {

  datatype Option<+T> = None | Some(value: T)

  /** Success, or the message of the error the source would raise. */
  datatype Outcome = Pass | Fail(message: string)
}
