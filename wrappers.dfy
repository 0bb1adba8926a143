/** Java's `null` results and the runtime exceptions the map model can raise. */
module Wrappers {

  /** A possibly-absent value: `None` stands for a Java `null` reference. */
  datatype Option<+T> = None | Some(value: T)

  /** The unchecked Java exceptions that the modelled code can throw. */
  datatype Fault = NullPointer | IndexOutOfBounds

  /** Either a normal result or the exception that aborted the call. */
  datatype Result<+T> = Success(value: T) | Failure(fault: Fault)
}
