/** The C++ standard exceptions the core can raise, as values. */
module Errors {

  /** `std::invalid_argument` and `std::out_of_range`. */
  datatype Exception = InvalidArgument | OutOfRange

  /** The outcome of a call that either returns a value or throws. */
  datatype Result<+T> = Ok(value: T) | Throws(exception: Exception)
}
