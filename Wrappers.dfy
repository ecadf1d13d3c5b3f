/** Optional values (a C# reference that may be null) and the outcome of an operation that may throw. */
module Wrappers {

  /** `None` stands for a null reference. */
  datatype Option<+T> = None | Some(value: T)

  /** `Failure` stands for an exception raised instead of a value. */
  datatype Result<+T, +E> = Success(value: T) | Failure(error: E)

  /** The values of a list without a null entry, one per entry and in order. */
  function Values<T>(items: seq<Option<T>>): (values: seq<T>)
    requires forall i :: 0 <= i < |items| ==> items[i].Some?
    ensures |values| == |items| && forall i :: 0 <= i < |items| ==> values[i] == items[i].value
  {
    seq(|items|, i requires 0 <= i < |items| => items[i].value)
  }
}
