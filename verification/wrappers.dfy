/** The optional value used for every "may be absent" input and result of the model,
    standing for Swift's `Optional`. */
module Wrappers {

  datatype Option<+T> = None | Some(value: T)
}
