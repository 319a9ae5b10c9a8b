/** The Option type used for the "no match" and "unparsable" results of the model. */
module Wrappers {
  datatype Option<+T> = None | Some(value: T)
}
