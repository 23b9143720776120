/** Failure-carrying results shared by every module of the model. */
module Wrappers {

  /** A value that may be missing: `None` stands for the Python exception
      (ValueError, KeyError, IndexError) that the modelled code raises. */
  datatype Option<+T> = None | Some(value: T)
}
