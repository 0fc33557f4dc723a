/** The optional result used for every decoder: `None` stands for the exception
    the Python program raises (IndexError, struct.error, ValueError). */
module Wrappers {
  datatype Option<+T> = None | Some(value: T)
}
