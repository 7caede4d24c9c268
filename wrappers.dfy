/** The usual Some/None datatype, used for the codec's "nothing decoded" answers. */
module Wrappers {
  datatype Option<+T> = None | Some(value: T)
}
