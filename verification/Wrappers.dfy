/** Failure-carrying results shared by the model. */
module Wrappers {

  /** `None` stands for the source's `None`, or for a raised error whose text does not matter. */
  datatype Option<+T> = None | Some(value: T)
}
