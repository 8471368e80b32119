/** The absent-or-present result used wherever the modelled code returns a
    value or Python's None. */
module Wrappers {

  datatype Option<+T> = None | Some(value: T)

}
