/** A value that may be missing. In this model `None` stands for the JavaScript
    `undefined`/`NaN` that the source produces when a computation has no answer. */
module Wrappers {
  datatype Option<+T> = None | Some(value: T)
}
