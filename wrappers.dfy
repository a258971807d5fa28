/** The optional value used for Python's `None`-or-value results and query parameters. */
module Wrappers {

  datatype Option<+T> = None | Some(value: T)
}
