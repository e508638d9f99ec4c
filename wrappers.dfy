/** Small failure-carrying datatype shared by the decoder and the serial port model. */
module Wrappers {

  datatype Option<+T> = None | Some(value: T)
}
