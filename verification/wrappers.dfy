/** Optional values (Java's nullable references) and results that may carry
    a thrown exception. */
module Wrappers {

  /** A nullable reference: `None` stands for Java's `null`. */
  datatype Option<+T> = None | Some(value: T)

  /** The exceptions the modelled code can throw. */
  datatype JavaException = UnsupportedOperation(message: string)

  /** The outcome of a Java call: a returned value or a thrown exception. */
  datatype Result<+T> = Success(value: T) | Failure(error: JavaException)
}
