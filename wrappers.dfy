/** Option and the Python-level outcome of a call: a returned value or a raised exception. */
module Wrappers {

  datatype Option<+T> = None | Some(value: T)

  /** The exceptions the modelled code can raise on its own. */
  datatype PyError =
    | IndexError      // indexing past the end of a list
    | NameError       // reading a variable that was never assigned
    | AttributeError  // reading an attribute the object does not have
    | TypeError       // iterating over a value that is not iterable
    | AssertionError  // a failed `assert` statement

  /** What a Python call does: return a value or raise. */
  datatype Outcome<+T> = Return(value: T) | Raise(error: PyError)
}
