/** Small result types shared by the model: optional values, Java references
    that may be null, and the outcome of an operation that can throw. */
module Wrappers {

  datatype Option<+T> = None | Some(value: T)

  /** A Java reference of type T, which may be null. */
  datatype Nullable<+T> = Null | NonNull(value: T)

  /** The Java exceptions the modelled code can raise. */
  datatype Failure =
    | IllegalArgument(message: string)   // LettuceAssert.notNull on a null argument
    | NullPointer                        // dereferencing a null payload while encoding

  /** Normal completion, or the exception that ended the operation. */
  datatype Outcome = Pass | Fail(error: Failure)
}
