/** The failure-carrying value used throughout the model: `None` stands for a
    Python exception (or a `None` return) and `Some` for a produced value. */
module Wrappers {

  datatype Option<+T> = None | Some(value: T)
}
