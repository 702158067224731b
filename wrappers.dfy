/** Absence and failure values shared by the modules of the university finder. */
module Wrappers {

  /** A value that may be missing (`undefined`/`null` in the original). */
  datatype Option<T> = None | Some(value: T)

  /** The outcome of an operation that can fail (a rejected promise in the original). */
  datatype Result<T, E> = Success(value: T) | Failure(error: E)

  function Min(a: int, b: int): int { if a <= b then a else b }

  function Max(a: int, b: int): int { if a >= b then a else b }

  /** No identifier occurs twice. */
  predicate NoDup<T(==)>(s: seq<T>)
  {
    forall i, j | 0 <= i < j < |s| :: s[i] != s[j]
  }
}
