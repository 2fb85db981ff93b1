/** Option and Result: the model's stand-ins for a nullable return value and for
    an operation that either returns normally or throws. */
module Wrappers {

  datatype Option<+T> = None | Some(value: T)

  datatype Result<+T, +E> = Success(value: T) | Failure(error: E)

  /** Some element of a non-empty set: the next element an enumeration of an
      unordered collection (a hash set, a dictionary's keys) yields. */
  method Pick<T>(s: set<T>) returns (x: T)
    requires s != {}
    ensures x in s
  {
    x :| x in s;
  }
}
