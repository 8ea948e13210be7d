/** The optional value every partial operation of the model returns: Go's
    `nil` address, "no zone" and "no reply" all become `None`. */
module Wrappers {

  datatype Option<+T> = None | Some(value: T)
}
