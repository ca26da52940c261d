/** The optional-value datatype used for Python's `None` returns and for
    calls into collaborators that may raise. */
module Wrappers {

  datatype Option<+T> = None | Some(value: T)
}
