/** The optional-value type used wherever PHP returns `null` for "nothing". */
module Wrappers {

  datatype Option<+T> = None | Some(value: T)
}
