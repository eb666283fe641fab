/** The Some/None datatype the registry uses where the Go code returns a
    possibly-nil interface value. */
module Wrappers {

  datatype Option<+T> = None | Some(value: T)
}
