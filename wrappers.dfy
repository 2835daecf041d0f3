/** The optional value used for absent storage entries, absent drag destinations,
    absent dialog props and absent fields of a partial filter. */
module Wrappers {
  datatype Option<+T> = None | Some(value: T)
}
