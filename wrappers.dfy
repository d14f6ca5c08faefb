/** Option and Result values used in place of Python's None and raised exceptions. */
module Wrappers {

  datatype Option<+T> = None | Some(value: T)

  datatype Result<+R, +E> = Success(value: R) | Failure(error: E)

  /** The result of a call that returns nothing but may raise. */
  datatype Outcome<+E> = Pass | Fail(error: E)

  /** The exceptions the modelled code raises. */
  datatype Error =
    | ValueError        // bad whence, negative seek position or negative size
    | InvalidToken      // the cipher rejected a token (tampering or wrong key)
    | AttributeError    // an attribute that the object does not have was read
    | RuntimeError      // a dict changed size while it was being iterated

  function Min(a: int, b: int): int { if a <= b then a else b }

  function Max(a: int, b: int): int { if a <= b then b else a }
}
