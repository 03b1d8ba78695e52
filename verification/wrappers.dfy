/** Failure-carrying values shared by every module of the model: a nullable
    reference becomes an `Option`, a thrown Java exception becomes a `Result`
    whose failure names the exception. */
module Wrappers {

  datatype Option<+T> = None | Some(value: T)

  datatype Result<+R, +E> = Success(value: R) | Failure(error: E)

  /** The exceptions the modelled code can throw. */
  datatype Fault =
    | NullPointer(what: string)         // a null reference was dereferenced
    | IllegalArgument(message: string)  // Preconditions.checkArgument failed
    | NullArgument(message: string)     // Preconditions.checkNotNull failed
    | VerifyFailed(message: string)     // Verify.verify failed
    | IndexOutOfBounds                  // an array index outside its bounds
}
