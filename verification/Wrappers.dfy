/** The result shapes shared by the models: a value that may be missing, and a
    computation that ends in a value or in the exception the source raises. */
module Wrappers {
  datatype Option<+T> = None | Some(value: T)

  datatype Result<+T, +E> = Success(value: T) | Failure(error: E)

  function Min(a: int, b: int): int { if a <= b then a else b }

  function Max(a: int, b: int): int { if a >= b then a else b }

  function One(yes: bool): nat { if yes then 1 else 0 }
}
