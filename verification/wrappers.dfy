/** The optional-value datatype the model uses for parse results. */
module Wrappers {

  datatype Option<+T> = None | Some(value: T)
}
