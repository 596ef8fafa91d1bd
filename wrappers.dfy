/** The optional-value type used for the source's NULL / false returns. */
module Wrappers {
  datatype Option<T> = None | Some(value: T)
}
