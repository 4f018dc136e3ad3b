/** Optional values and pass/fail outcomes, standing for Python's `None`
    and for a call that either returns or raises. */
module Wrappers {

  datatype Option<+T> = None | Some(value: T)

  datatype Outcome<+E> = Pass | Fail(error: E)
}
