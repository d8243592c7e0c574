/** Option and Result: the null value and the raised exception of the program,
    as values. */
module Wrappers {

  /** `None` stands for a null (NaN) cell or an absent cleaned code. */
  datatype Option<+T> = None | Some(value: T)

  /** `Failure` stands for an exception the program raises to its caller. */
  datatype Result<+R, +E> = Success(value: R) | Failure(error: E)
}
