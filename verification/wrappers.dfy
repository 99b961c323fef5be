/** Option and Result values shared by every module of the model.
    `Raise(e)` stands for a Python exception of kind `e` escaping the call. */
module Wrappers {

  datatype Option<+T> = None | Some(value: T)

  /** The exception kinds the modelled functions raise. */
  datatype Exception =
    | KeyError
    | ValueError
    | IndexError
    | ZeroDivisionError
    | NetworkXError   // raised by networkx when asked for the neighbours of an absent node
    | RecursionError  // Python's recursion depth exceeded

  datatype Result<+T> = Ok(value: T) | Raise(error: Exception)
}
