/** Values shared by both models: the nullable slot of a Kotlin array and the
    outcome of an operation that may throw one of the JVM exceptions the
    Kotlin code can raise. */
module Outcomes {

  /** A Kotlin `T?`: `None` stands for `null`. */
  datatype Option<+T> = None | Some(value: T)

  /** The exceptions the modelled Kotlin code can throw. */
  datatype Exception =
    | ArrayIndexOutOfBounds(index: int)
    | NegativeArraySize(size: int)
    | Arithmetic(message: string)

  /** Either the value an operation returns or the exception it throws. */
  datatype Result<+R> = Ok(value: R) | Thrown(error: Exception)
}
