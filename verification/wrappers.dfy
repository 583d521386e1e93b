/** The optional-value datatype used for parse results throughout the model. */
module Wrappers {

  /** `None` stands for a parse that fails (Python's `ValueError`). */
  datatype Option<+T> = None | Some(value: T)
}
