/** An optional value, used for Go's nil-or-value results (a nil `error`, a missing attribute). */
module Wrappers {

  datatype Option<+T> = None | Some(value: T)
}
