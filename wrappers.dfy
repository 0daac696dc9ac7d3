/** The optional value used for `Option` in the source and for what a
    library call may fail to produce. */
module Wrappers {

  datatype Option<+T> = None | Some(value: T)
}
