/** Option and Result types used for the source's optional returns, null
    shared pointers and thrown exceptions. */
module Wrappers {

  /** `std::optional<T>`, a nullable `std::shared_ptr<T>`, or a `bool`
      success flag paired with an out-parameter. */
  datatype Option<+T> = None | Some(value: T)

  /** A value, or the exception the source would throw instead. */
  datatype Result<+T, +E> = Success(value: T) | Failure(error: E)

  /** The standard exceptions the source throws: `std::invalid_argument`,
      `std::logic_error`, and the stack's own `stack_empty`. */
  datatype Exception = InvalidArgument | LogicError | StackEmpty
}
